/** EROFS directory blocks: a table of entries, then their names. A name ends where the next one starts; the
    last ends at the first zero byte or with the block. */
module ErofsDir {
  import opened Bytes
  import opened BigEndian
  import opened LittleEndian
  import FlatFile

  const ENTRY_SIZE: nat := 12

  datatype Dirent = Dirent(nid: nat, name: seq<Byte>, fileType: Byte)

  /** `OutOfRange` is where the code would index past the block; NeverOutOfRange shows that it does not. */
  datatype Error = BadBlock | BadName | Overflow | OutOfRange

  datatype Result<+T> = Ok(value: T) | Err(error: Error)

  /** Whether bytes are valid UTF-8. */
  type Utf8 = seq<Byte> -> bool

  predicate GoodName(utf8: Utf8, name: seq<Byte>) {
    0 !in name && 47 !in name && name != [] && utf8(name)
  }

  predicate GoodEntries(utf8: Utf8, ds: seq<Dirent>) {
    forall i | 0 <= i < |ds| :: GoodName(utf8, ds[i].name) && ds[i].nid < Pow256(8)
  }

  function NamesLen(ds: seq<Dirent>): nat {
    if ds == [] then 0 else NamesLen(ds[..|ds| - 1]) + |ds[|ds| - 1].name|
  }

  /** Where the name of entry `i` starts. */
  function NameAt(ds: seq<Dirent>, i: nat): nat
    requires i <= |ds|
  {
    ENTRY_SIZE * |ds| + NamesLen(ds[..i])
  }

  lemma NameNext(ds: seq<Dirent>, i: nat)
    requires i < |ds|
    ensures NameAt(ds, i + 1) == NameAt(ds, i) + |ds[i].name|
  {
    assert ds[..i + 1][..i] == ds[..i];
  }

  lemma {:induction false} NameRises(ds: seq<Dirent>, i: nat, j: nat)
    requires i <= j <= |ds|
    ensures NameAt(ds, i) <= NameAt(ds, j)
    decreases j
  {
    hide NamesLen;
    if i < j {
      NameRises(ds, i, j - 1);
      NameNext(ds, j - 1);
    }
  }

  predicate Fits(ds: seq<Dirent>, size: nat) {
    ENTRY_SIZE * |ds| + NamesLen(ds) <= size
  }

  function EntryBytes(d: Dirent, nameoff: nat): (b: seq<Byte>)
    ensures |b| == ENTRY_SIZE
  {
    Put(d.nid, 8) + Put(nameoff % 65536, 2) + [d.fileType, 0]
  }

  // ----- reading a block -----

  /** The bytes up to the first zero. */
  function UpToZero(s: seq<Byte>): (r: seq<Byte>)
    ensures r <= s && 0 !in r && (|r| == |s| || s[|r|] == 0)
  {
    if s == [] || s[0] == 0 then [] else [s[0]] + UpToZero(s[1..])
  }

  function ParseEntry(utf8: Utf8, buf: seq<Byte>, i: nat, count: nat): Result<Dirent>
    requires i < count && ENTRY_SIZE * count <= |buf|
  {
    var at := ENTRY_SIZE * i;
    var nameoff := Get(buf[at + 8..at + 10]);
    if buf[at + 11] != 0 then Err(BadBlock)
    else if i < count - 1 && Get(buf[at + 20..at + 22]) < nameoff then Err(BadBlock)
    else
      var end := if i < count - 1 then Get(buf[at + 20..at + 22]) else |buf|;
      if end > |buf| then Err(BadBlock)
      else if nameoff > |buf| then Err(OutOfRange)
      else
        var name := if i < count - 1 then buf[nameoff..end] else UpToZero(buf[nameoff..end]);
        if !GoodName(utf8, name) then Err(BadName)
        else Ok(Dirent(Get(buf[at..at + 8]), name, buf[at + 10]))
  }

  function ParseFrom(utf8: Utf8, buf: seq<Byte>, i: nat, count: nat): Result<seq<Dirent>>
    requires i <= count && ENTRY_SIZE * count <= |buf|
    decreases count - i
  {
    if i == count then Ok([]) else
    var d := ParseEntry(utf8, buf, i, count);
    if d.Err? then Err(d.error) else
    var rest := ParseFrom(utf8, buf, i + 1, count);
    if rest.Err? then rest else Ok([d.value] + rest.value)
  }

  function ParseBlock(utf8: Utf8, buf: seq<Byte>): Result<seq<Dirent>> {
    if buf == [] then Ok([])
    else if |buf| < ENTRY_SIZE then Err(BadBlock)
    else
      var first := Get(buf[8..10]);
      if first == 0 then Ok([])
      else if first % ENTRY_SIZE != 0 || first > |buf| then Err(BadBlock)
      else ParseFrom(utf8, buf, 0, first / ENTRY_SIZE)
  }

  function Prepended(ds: seq<Dirent>, r: Result<seq<Dirent>>): Result<seq<Dirent>> {
    if r.Err? then r else Ok(ds + r.value)
  }

  lemma Prepending(ds: seq<Dirent>, more: seq<Dirent>, r: Result<seq<Dirent>>)
    ensures Prepended(ds, Prepended(more, r)) == Prepended(ds + more, r)
    ensures Prepended([], r) == r && Prepended(ds, Ok([])) == Ok(ds) && (r.Err? ==> Prepended(ds, r) == r)
  {
    if r.Ok? {
      assert ds + (more + r.value) == (ds + more) + r.value;
      assert [] + r.value == r.value;
    }
    assert ds + [] == ds;
  }

  /** Parse the entries of a block one after another. */
  method ParseDirectoryBlock(utf8: Utf8, buf: seq<Byte>) returns (r: Result<seq<Dirent>>)
    ensures r == ParseBlock(utf8, buf) && r != Err(OutOfRange)
  {
    hide ParseEntry, Prepended;
    NeverOutOfRange(utf8, buf);
    if |buf| == 0 {
      return Ok([]);
    }
    if |buf| < ENTRY_SIZE {
      return Err(BadBlock);
    }
    var first := Get(buf[8..10]);
    if first == 0 {
      return Ok([]);
    }
    if first % ENTRY_SIZE != 0 || first / ENTRY_SIZE * ENTRY_SIZE > |buf| {
      return Err(BadBlock);
    }
    var count := first / ENTRY_SIZE;
    var ds, i := [], 0;
    ghost var all := ParseFrom(utf8, buf, 0, count);
    Prepending([], [], all);
    while i < count
      invariant 0 <= i <= count && all == Prepended(ds, ParseFrom(utf8, buf, i, count))
    {
      var d := ParseEntry(utf8, buf, i, count);
      ParseStep(utf8, buf, i, count);
      if d.Err? {
        Prepending(ds, [], ParseFrom(utf8, buf, i, count));
        return Err(d.error);
      }
      Prepending(ds, [d.value], ParseFrom(utf8, buf, i + 1, count));
      ds := ds + [d.value];
      i := i + 1;
    }
    Prepending(ds, [], Ok([]));
    r := Ok(ds);
  }

  lemma {:induction false} ParseInRange(utf8: Utf8, buf: seq<Byte>, i: nat, count: nat)
    requires i < count && ENTRY_SIZE * count <= |buf| && Get(buf[ENTRY_SIZE * i + 8..ENTRY_SIZE * i + 10]) <= |buf|
    ensures ParseFrom(utf8, buf, i, count) != Err(OutOfRange)
    decreases count - i
  {
    hide Get;
    if i + 1 < count && ParseEntry(utf8, buf, i, count).Ok? {
      ParseInRange(utf8, buf, i + 1, count);
    }
  }

  /** Whatever bytes a block holds, parsing it never reads outside it: each name starts where the one before was found
      to end. */
  lemma NeverOutOfRange(utf8: Utf8, buf: seq<Byte>)
    ensures ParseBlock(utf8, buf) != Err(OutOfRange)
  {
    hide Get, ParseFrom;
    if |buf| >= ENTRY_SIZE {
      var first := Get(buf[8..10]);
      if first != 0 && first % ENTRY_SIZE == 0 && first <= |buf| {
        ParseInRange(utf8, buf, 0, first / ENTRY_SIZE);
      }
    }
  }

  lemma ParseStep(utf8: Utf8, buf: seq<Byte>, i: nat, count: nat)
    requires i < count && ENTRY_SIZE * count <= |buf|
    ensures var d, r := ParseEntry(utf8, buf, i, count), ParseFrom(utf8, buf, i, count);
            if d.Err? then r == Err(d.error) else r == Prepended([d.value], ParseFrom(utf8, buf, i + 1, count))
  {
    hide ParseEntry;
  }

  // ----- building a block -----

  /** The first `k` entries and names are in place and what follows is zero. */
  ghost predicate Laid(buf: seq<Byte>, ds: seq<Dirent>, k: nat) {
    && k <= |ds| && ENTRY_SIZE * |ds| <= |buf| && NameAt(ds, k) <= |buf|
    && (forall i | 0 <= i < k :: EntryLaid(buf, ds, i))
    && forall p | NameAt(ds, k) <= p < |buf| :: buf[p] == 0
  }

  ghost predicate EntryLaid(buf: seq<Byte>, ds: seq<Dirent>, i: nat)
    requires i < |ds|
  {
    && ENTRY_SIZE * |ds| <= |buf| && NameAt(ds, i) + |ds[i].name| <= |buf|
    && buf[ENTRY_SIZE * i..ENTRY_SIZE * i + ENTRY_SIZE] == EntryBytes(ds[i], NameAt(ds, i))
    && buf[NameAt(ds, i)..NameAt(ds, i) + |ds[i].name|] == ds[i].name
  }

  predicate GoodNames(utf8: Utf8, ds: seq<Dirent>) {
    forall i | 0 <= i < |ds| :: GoodName(utf8, ds[i].name)
  }

  /** Pack entries into one block; it fails exactly on a bad name or when they do not fit. */
  method BuildDirectoryBlock(utf8: Utf8, ds: seq<Dirent>, size: nat) returns (r: Result<seq<Byte>>)
    requires ds != [] ==> size >= ENTRY_SIZE
    ensures r.Ok? ==>
              |r.value| == size && (ds != [] ==> Laid(r.value, ds, |ds|)) && (ds == [] ==> r.value == Zeros(size))
    ensures r.Ok? <==> ds == [] || (Fits(ds, size) && GoodNames(utf8, ds))
  {
    hide EntryBytes, NameAt, Laid, GoodName;
    var buf := Zeros(size);
    if ds == [] {
      return Ok(buf);
    }
    var i, at := 0, ENTRY_SIZE * |ds|;
    NothingLaid(ds, size);
    while i < |ds|
      invariant 0 <= i <= |ds| && |buf| == size && at == NameAt(ds, i)
      invariant i > 0 ==> ENTRY_SIZE * |ds| <= size
      invariant ENTRY_SIZE * |ds| <= size ==> Laid(buf, ds, i)
      invariant forall j | 0 <= j < i :: GoodName(utf8, ds[j].name)
    {
      var d := ds[i];
      NameNext(ds, i);
      AllNames(ds, i);
      var headed := FlatFile.Write(buf, ENTRY_SIZE * i, EntryBytes(d, at));
      if !GoodName(utf8, d.name) {
        return Err(BadName);
      }
      if at + |d.name| > size {
        return Err(Overflow);
      }
      LaidMore(buf, ds, i);
      buf := FlatFile.Write(headed, at, d.name);
      at := at + |d.name|;
      i := i + 1;
    }
    AllNames(ds, |ds| - 1);
    LaidFits(buf, ds);
    r := Ok(buf);
  }

  lemma NothingLaid(ds: seq<Dirent>, size: nat)
    ensures NameAt(ds, 0) == ENTRY_SIZE * |ds|
    ensures ENTRY_SIZE * |ds| <= size ==> Laid(Zeros(size), ds, 0)
  {
  }

  lemma AllNames(ds: seq<Dirent>, i: nat)
    requires i < |ds|
    ensures NameAt(ds, i + 1) <= NameAt(ds, |ds|) == ENTRY_SIZE * |ds| + NamesLen(ds)
    ensures ENTRY_SIZE * |ds| <= NameAt(ds, i)
  {
    hide NamesLen;
    NameRises(ds, i + 1, |ds|);
    assert ds[..|ds|] == ds;
  }

  lemma LaidFits(buf: seq<Byte>, ds: seq<Dirent>)
    requires Laid(buf, ds, |ds|)
    ensures NameAt(ds, |ds|) <= |buf|
  {
  }

  /** Writing entry `i` and its name. */
  lemma LaidMore(buf: seq<Byte>, ds: seq<Dirent>, i: nat)
    requires i < |ds| && NameAt(ds, i) + |ds[i].name| <= |buf| && ENTRY_SIZE * |ds| <= NameAt(ds, i)
    requires ENTRY_SIZE * |ds| <= |buf| ==> Laid(buf, ds, i)
    ensures var headed := FlatFile.Write(buf, ENTRY_SIZE * i, EntryBytes(ds[i], NameAt(ds, i)));
            var next := FlatFile.Write(headed, NameAt(ds, i), ds[i].name);
            |next| == |buf| && Laid(next, ds, i + 1)
  {
    hide EntryBytes, NameAt, EntryLaid, FlatFile.Write;
    var entry, at := EntryBytes(ds[i], NameAt(ds, i)), NameAt(ds, i);
    var headed := FlatFile.Write(buf, ENTRY_SIZE * i, entry);
    var next := FlatFile.Write(headed, at, ds[i].name);
    NameNext(ds, i);
    forall j | 0 <= j < i
      ensures EntryLaid(next, ds, j)
    {
      assert EntryLaid(buf, ds, j);
      StillLaid(buf, ds, i, j);
    }
    NewlyLaid(buf, ds, i);
  }

  lemma StillLaid(buf: seq<Byte>, ds: seq<Dirent>, i: nat, j: nat)
    requires j < i < |ds| && EntryLaid(buf, ds, j) && NameAt(ds, i) + |ds[i].name| <= |buf|
    ensures var headed := FlatFile.Write(buf, ENTRY_SIZE * i, EntryBytes(ds[i], NameAt(ds, i)));
            EntryLaid(FlatFile.Write(headed, NameAt(ds, i), ds[i].name), ds, j)
  {
    hide EntryBytes, NameAt, FlatFile.Write;
    var entry, at, name := EntryBytes(ds[i], NameAt(ds, i)), NameAt(ds, i), NameAt(ds, j);
    var headed := FlatFile.Write(buf, ENTRY_SIZE * i, entry);
    NameRises(ds, j + 1, i);
    NameNext(ds, j);
    AllNames(ds, j);
    FlatFile.Overlaid(buf, ENTRY_SIZE * i, entry, ENTRY_SIZE * j, ENTRY_SIZE * j + ENTRY_SIZE);
    FlatFile.Overlaid(headed, at, ds[i].name, ENTRY_SIZE * j, ENTRY_SIZE * j + ENTRY_SIZE);
    FlatFile.Overlaid(buf, ENTRY_SIZE * i, entry, name, name + |ds[j].name|);
    FlatFile.Overlaid(headed, at, ds[i].name, name, name + |ds[j].name|);
  }

  lemma NewlyLaid(buf: seq<Byte>, ds: seq<Dirent>, i: nat)
    requires i < |ds| && ENTRY_SIZE * |ds| <= NameAt(ds, i) && NameAt(ds, i) + |ds[i].name| <= |buf|
    ensures var headed := FlatFile.Write(buf, ENTRY_SIZE * i, EntryBytes(ds[i], NameAt(ds, i)));
            var next := FlatFile.Write(headed, NameAt(ds, i), ds[i].name);
            |next| == |buf| && EntryLaid(next, ds, i) && forall p | NameAt(ds, i) + |ds[i].name| <= p < |buf| ::
              next[p] == buf[p]
  {
    hide EntryBytes, NameAt;
    var entry, at := EntryBytes(ds[i], NameAt(ds, i)), NameAt(ds, i);
    var headed := FlatFile.Write(buf, ENTRY_SIZE * i, entry);
    FlatFile.Overlaid(buf, ENTRY_SIZE * i, entry, 0, 0);
    FlatFile.Overlaid(headed, at, ds[i].name, ENTRY_SIZE * i, ENTRY_SIZE * i + ENTRY_SIZE);
  }

  // ----- reading back what was built -----

  lemma {:induction false} UpToZeroIs(s: seq<Byte>, name: seq<Byte>)
    requires name <= s && 0 !in name && (|name| == |s| || s[|name|] == 0)
    ensures UpToZero(s) == name
    decreases |s|
  {
    if name != [] {
      UpToZeroIs(s[1..], name[1..]);
      assert name == [name[0]] + name[1..];
    }
  }

  /** The fields of entry `i` in a built block. */
  lemma EntryReads(buf: seq<Byte>, ds: seq<Dirent>, i: nat)
    requires i < |ds| && EntryLaid(buf, ds, i) && ds[i].nid < Pow256(8) && NameAt(ds, i) < 65536
    ensures var at := ENTRY_SIZE * i;
            && Get(buf[at..at + 8]) == ds[i].nid && Get(buf[at + 8..at + 10]) == NameAt(ds, i)
            && buf[at + 10] == ds[i].fileType && buf[at + 11] == 0
  {
    hide NameAt, Put, Get, Pow256;
    Widths();
    var at, e := ENTRY_SIZE * i, EntryBytes(ds[i], NameAt(ds, i));
    GetPut(ds[i].nid, 8);
    GetPut(NameAt(ds, i), 2);
    SubSlice(buf, at, at + ENTRY_SIZE, at, at + 8);
    SubSlice(buf, at, at + ENTRY_SIZE, at + 8, at + 10);
    assert e[0..8] == Put(ds[i].nid, 8) && e[8..10] == Put(NameAt(ds, i), 2);
    assert e[10] == buf[at..at + ENTRY_SIZE][10] && e[11] == buf[at..at + ENTRY_SIZE][11];
  }

  /** A block of at most 64 KiB reads back to the entries it was built from. */
  lemma BlockReadsBack(utf8: Utf8, buf: seq<Byte>, ds: seq<Dirent>)
    requires ds != [] && GoodEntries(utf8, ds) && Laid(buf, ds, |ds|) && |buf| <= 65536
    ensures ParseBlock(utf8, buf) == Ok(ds)
  {
    hide NameAt, GoodName, Pow256, Get, EntryLaid, Laid, ParseFrom;
    NothingLaid(ds, 0);
    LaidEntry(buf, ds, 0);
    NameBelow(utf8, buf, ds, 0);
    EntryReads(buf, ds, 0);
    Divides(|ds|);
    ParseAll(utf8, buf, ds, 0);
    assert ds[0..] == ds;
  }

  lemma LaidEntry(buf: seq<Byte>, ds: seq<Dirent>, i: nat)
    requires i < |ds| && Laid(buf, ds, |ds|)
    ensures EntryLaid(buf, ds, i) && ENTRY_SIZE * |ds| <= |buf|
  {
  }

  lemma Divides(n: nat)
    ensures ENTRY_SIZE * n % ENTRY_SIZE == 0 && ENTRY_SIZE * n / ENTRY_SIZE == n
  {
  }

  lemma NameBelow(utf8: Utf8, buf: seq<Byte>, ds: seq<Dirent>, i: nat)
    requires i < |ds| && EntryLaid(buf, ds, i) && |buf| <= 65536 && GoodName(utf8, ds[i].name)
    ensures NameAt(ds, i) < 65536 && NameAt(ds, i) + |ds[i].name| <= |buf| && ds[i].name != [] && 0 !in ds[i].name
  {
  }

  lemma {:induction false} ParseAll(utf8: Utf8, buf: seq<Byte>, ds: seq<Dirent>, i: nat)
    requires i <= |ds| && GoodEntries(utf8, ds) && Laid(buf, ds, |ds|) && |buf| <= 65536
    ensures ParseFrom(utf8, buf, i, |ds|) == Ok(ds[i..])
    decreases |ds| - i
  {
    hide NameAt, GoodName, Pow256, ParseEntry;
    if i < |ds| {
      ParseAll(utf8, buf, ds, i + 1);
      ParseOne(utf8, buf, ds, i);
      assert ds[i..] == [ds[i]] + ds[i + 1..];
    } else {
      assert ds[i..] == [];
    }
  }

  lemma ParseOne(utf8: Utf8, buf: seq<Byte>, ds: seq<Dirent>, i: nat)
    requires i < |ds| && GoodEntries(utf8, ds) && Laid(buf, ds, |ds|) && |buf| <= 65536
    ensures ParseEntry(utf8, buf, i, |ds|) == Ok(ds[i])
  {
    hide NameAt, GoodName, Pow256, Get, EntryLaid, UpToZero;
    assert EntryLaid(buf, ds, i);
    NameBelow(utf8, buf, ds, i);
    EntryReads(buf, ds, i);
    NameNext(ds, i);
    NameSlice(buf, ds, i);
    if i + 1 < |ds| {
      assert EntryLaid(buf, ds, i + 1);
      NameBelow(utf8, buf, ds, i + 1);
      EntryReads(buf, ds, i + 1);
    } else {
      var tail := buf[NameAt(ds, i)..|buf|];
      assert tail[..|ds[i].name|] == ds[i].name;
      UpToZeroIs(tail, ds[i].name);
    }
  }

  lemma NameSlice(buf: seq<Byte>, ds: seq<Dirent>, i: nat)
    requires i < |ds| && EntryLaid(buf, ds, i)
    ensures NameAt(ds, i) + |ds[i].name| <= |buf| && buf[NameAt(ds, i)..NameAt(ds, i) + |ds[i].name|] == ds[i].name
  {
  }

  // ----- directories of several blocks -----

  /** The entries of all blocks of a directory's data. */
  function ListBlocks(utf8: Utf8, data: seq<Byte>, blockSize: nat): Result<seq<Dirent>>
    requires blockSize > 0
    decreases |data|
  {
    if data == [] then Ok([]) else
    var n := Min(blockSize, |data|);
    var first := ParseBlock(utf8, data[..n]);
    if first.Err? then first else Prepended(first.value, ListBlocks(utf8, data[n..], blockSize))
  }

  /** Read a directory's data block by block. */
  method ListDirectory(utf8: Utf8, data: seq<Byte>, blockSize: nat) returns (r: Result<seq<Dirent>>)
    requires blockSize > 0
    ensures r == ListBlocks(utf8, data, blockSize)
  {
    hide ParseBlock, Prepended;
    var all, at := [], 0;
    ghost var whole := ListBlocks(utf8, data, blockSize);
    Prepending([], [], whole);
    assert data[0..] == data;
    while at < |data|
      invariant 0 <= at <= |data| && whole == Prepended(all, ListBlocks(utf8, data[at..], blockSize))
    {
      var end := Min(at + blockSize, |data|);
      var ds := ParseDirectoryBlock(utf8, data[at..end]);
      ListStep(utf8, data, at, blockSize);
      if ds.Err? {
        Prepending(all, [], ListBlocks(utf8, data[at..], blockSize));
        return ds;
      }
      Prepending(all, ds.value, ListBlocks(utf8, data[end..], blockSize));
      all := all + ds.value;
      at := end;
    }
    Prepending(all, [], Ok([]));
    r := Ok(all);
  }

  lemma ListStep(utf8: Utf8, data: seq<Byte>, at: nat, blockSize: nat)
    requires blockSize > 0 && at < |data|
    ensures var end := Min(at + blockSize, |data|);
            var first := ParseBlock(utf8, data[at..end]);
            ListBlocks(utf8, data[at..], blockSize) ==
            if first.Err? then first else Prepended(first.value, ListBlocks(utf8, data[end..], blockSize))
  {
    hide ParseBlock, Prepended;
    var end, rest := Min(at + blockSize, |data|), data[at..];
    var n := Min(blockSize, |rest|);
    assert rest[..n] == data[at..end] && rest[n..] == data[end..];
  }

  /** One more whole block. */
  lemma {:induction false} ListAppend(utf8: Utf8, blocks: seq<Byte>, m: nat, block: seq<Byte>, blockSize: nat,
                                      xs: seq<Dirent>, ys: seq<Dirent>)
    requires blockSize > 0 && |blocks| == Start(blockSize, m) && |block| == blockSize
    requires ListBlocks(utf8, blocks, blockSize) == Ok(xs) && ParseBlock(utf8, block) == Ok(ys)
    ensures ListBlocks(utf8, blocks + block, blockSize) == Ok(xs + ys)
    decreases m
  {
    hide ParseBlock;
    var all := blocks + block;
    if m == 0 {
      assert all == block && all[..blockSize] == block && all[blockSize..] == [];
      assert ListBlocks(utf8, [], blockSize) == Ok([]);
      assert xs + ys == ys + [];
    } else {
      StartMonotone(blockSize, 1, m);
      assert Start(blockSize, 1) == blockSize;
      var first, rest := blocks[..blockSize], blocks[blockSize..];
      assert all[..blockSize] == first && all[blockSize..] == rest + block;
      var head := ParseBlock(utf8, first).value;
      var tail := ListBlocks(utf8, rest, blockSize).value;
      ListAppend(utf8, rest, m - 1, block, blockSize, tail, ys);
      assert head + (tail + ys) == (head + tail) + ys;
    }
  }

  /** Pack entries into as many blocks as they need. It fails exactly on a bad name or an entry larger than a
      block, and what it builds lists as the same entries. */
  method BuildDirectoryData(utf8: Utf8, ds: seq<Dirent>, blockSize: nat) returns (r: Result<seq<Byte>>)
    requires 0 < blockSize
    ensures r.Ok? <==>
            ds == [] || (GoodNames(utf8, ds) && forall i | 0 <= i < |ds| :: ENTRY_SIZE + |ds[i].name| <= blockSize)
    ensures r.Ok? ==> exists m: nat :: m > 0 && |r.value| == Start(blockSize, m)
    ensures r.Ok? && ENTRY_SIZE <= blockSize <= 65536 && (forall i | 0 <= i < |ds| :: ds[i].nid < Pow256(8)) ==>
              ListBlocks(utf8, r.value, blockSize) == Ok(ds)
  {
    hide ParseBlock, ListBlocks, Laid, GoodName, NamesLen, Pow256, Fits, Zeros, Packed;
    if ds == [] {
      ZeroBlock(utf8, blockSize);
      return Ok(Zeros(blockSize));
    }
    var blocks: seq<Byte>, current: seq<Dirent>, namesLen, i := [], [], 0, 0;
    ghost var m, k := 0, 0;
    NothingPacked(utf8, ds, blockSize);
    while i < |ds|
      invariant 0 <= k <= i <= |ds| && current == ds[k..i] && (i > 0 ==> current != [] && blockSize >= ENTRY_SIZE)
      invariant |blocks| == Start(blockSize, m) && namesLen == NamesLen(current)
                && (Fits(current, blockSize) || |current| == 1)
      invariant forall j | 0 <= j < i :: GoodName(utf8, ds[j].name)
      invariant forall j | 0 <= j < k :: ENTRY_SIZE + |ds[j].name| <= blockSize
      invariant Packed(utf8, ds, blocks, blockSize, k)
    {
      var d := ds[i];
      if !GoodName(utf8, d.name) {
        return Err(BadName);
      }
      OneMore(current, d, blockSize);
      SliceGrows(ds, k, i);
      if ENTRY_SIZE * (|current| + 1) + namesLen + |d.name| > blockSize {
        if |current| == 0 {
          return Err(Overflow);
        }
        var block := BuildDirectoryBlock(utf8, current, blockSize);
        FitsEach(ds, k, i, blockSize);
        if block.Err? {
          return block;
        }
        BlockPacked(utf8, ds, blocks, m, block.value, blockSize, k, i);
        blocks := blocks + block.value;
        m, k := m + 1, i;
        current, namesLen := [], 0;
        OneMore(current, d, blockSize);
      }
      current, namesLen := current + [d], namesLen + |d.name|;
      i := i + 1;
    }
    var block := BuildDirectoryBlock(utf8, current, blockSize);
    FitsEach(ds, k, i, blockSize);
    if block.Err? {
      return block;
    }
    BlockPacked(utf8, ds, blocks, m, block.value, blockSize, k, i);
    AllPacked(utf8, ds, blocks + block.value, blockSize);
    assert |blocks + block.value| == Start(blockSize, m + 1);
    r := Ok(blocks + block.value);
  }

  lemma SliceGrows(ds: seq<Dirent>, k: nat, i: nat)
    requires k <= i < |ds|
    ensures ds[k..i + 1] == ds[k..i] + [ds[i]] && ds[i..i + 1] == [ds[i]]
  {
  }

  lemma OneMore(ds: seq<Dirent>, d: Dirent, size: nat)
    ensures NamesLen(ds + [d]) == NamesLen(ds) + |d.name| && NamesLen([]) == 0 && (size >= 0 ==> Fits([], size))
    ensures Fits(ds + [d], size) <==> ENTRY_SIZE * (|ds| + 1) + NamesLen(ds) + |d.name| <= size
    ensures ds == [] && Fits(ds + [d], size) ==> size >= ENTRY_SIZE
  {
    assert (ds + [d])[..|ds|] == ds;
  }

  lemma {:induction false} NamesCover(ds: seq<Dirent>, j: nat)
    requires j < |ds|
    ensures |ds[j].name| <= NamesLen(ds)
  {
    if j < |ds| - 1 {
      NamesCover(ds[..|ds| - 1], j);
    }
  }

  /** Entries that fit together fit singly; one that does not is too large alone. */
  lemma FitsEach(ds: seq<Dirent>, k: nat, i: nat, size: nat)
    requires k < i <= |ds| && (Fits(ds[k..i], size) || i == k + 1)
    ensures Fits(ds[k..i], size) ==> forall j | k <= j < i :: ENTRY_SIZE + |ds[j].name| <= size
    ensures !Fits(ds[k..i], size) ==> ENTRY_SIZE + |ds[k].name| > size
  {
    var part := ds[k..i];
    if Fits(part, size) {
      forall j | k <= j < i
        ensures ENTRY_SIZE + |ds[j].name| <= size
      {
        NamesCover(part, j - k);
        assert part[j - k] == ds[j];
      }
    } else {
      assert part == [] + [ds[k]];
      OneMore([], ds[k], size);
    }
  }

  lemma ZeroBlock(utf8: Utf8, blockSize: nat)
    requires blockSize > 0
    ensures |Zeros(blockSize)| == Start(blockSize, 1)
    ensures blockSize >= ENTRY_SIZE ==> ListBlocks(utf8, Zeros(blockSize), blockSize) == Ok([])
  {
    var z := Zeros(blockSize);
    assert Start(blockSize, 1) == blockSize;
    if blockSize >= ENTRY_SIZE {
      assert z[8..10] == Zeros(2);
      GetZeros(2);
      assert z[..blockSize] == z && z[blockSize..] == [];
      assert ParseBlock(utf8, z) == Ok([]);
      assert ListBlocks(utf8, [], blockSize) == Ok([]);
      Prepending([], [], Ok([]));
    }
  }

  lemma NothingPacked(utf8: Utf8, ds: seq<Dirent>, blockSize: nat)
    requires blockSize > 0
    ensures Packed(utf8, ds, [], blockSize, 0) && Start(blockSize, 0) == 0 && NamesLen([]) == 0 && Fits([], blockSize)
  {
    assert ds[..0] == [];
  }

  /** A finished block lists as the entries it was built from. */
  lemma BlockPacked(utf8: Utf8, ds: seq<Dirent>, blocks: seq<Byte>, m: nat, block: seq<Byte>, blockSize: nat, k: nat,
                    i: nat)
    requires blockSize > 0 && k < i <= |ds| && |blocks| == Start(blockSize, m) && |block| == blockSize
    requires Packed(utf8, ds, blocks, blockSize, k) && Laid(block, ds[k..i], i - k)
    requires forall j | 0 <= j < i :: GoodName(utf8, ds[j].name)
    ensures Packed(utf8, ds, blocks + block, blockSize, i) && |blocks + block| == Start(blockSize, m + 1)
  {
    hide ParseBlock, ListBlocks, Laid, GoodName, Pow256;
    if blockSize <= 65536 && forall j | 0 <= j < |ds| :: ds[j].nid < Pow256(8) {
      assert GoodEntries(utf8, ds[k..i]);
      BlockReadsBack(utf8, block, ds[k..i]);
      ListAppend(utf8, blocks, m, block, blockSize, ds[..k], ds[k..i]);
      assert ds[..k] + ds[k..i] == ds[..i];
    }
  }

  lemma AllPacked(utf8: Utf8, ds: seq<Dirent>, blocks: seq<Byte>, blockSize: nat)
    requires blockSize > 0 && Packed(utf8, ds, blocks, blockSize, |ds|)
    ensures blockSize <= 65536 && (forall i | 0 <= i < |ds| :: ds[i].nid < Pow256(8)) ==>
              ListBlocks(utf8, blocks, blockSize) == Ok(ds)
  {
    hide ListBlocks, Pow256;
    assert ds[..|ds|] == ds;
  }

  /** The finished blocks list as the first `k` entries. */
  ghost predicate Packed(utf8: Utf8, ds: seq<Dirent>, blocks: seq<Byte>, blockSize: nat, k: nat)
    requires blockSize > 0 && k <= |ds|
  {
    blockSize <= 65536 && (forall i | 0 <= i < |ds| :: ds[i].nid < Pow256(8)) ==>
      ListBlocks(utf8, blocks, blockSize) == Ok(ds[..k])
  }
}
