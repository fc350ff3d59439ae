/** Version 2 packfiles: a header, a table of slots, then each blob behind an item header. */
module PackModel {
  import opened Bytes
  import opened BigEndian

  const BASE_HEADER: seq<Byte> := [79, 66, 74, 66, 2, 2, 0, 0]

  const HEADER_SIZE: nat := 32

  const SLOT_SIZE: nat := 48

  const ITEM_HEADER_SIZE: nat := 16

  const FLAG_SEALED: nat := 1

  datatype Error = Truncated | BadMagic | BadVersion | BadType | OtherVersion | BadCount | OutOfRange | IsSealed
    | SlotsFull | IsClosed

  datatype Result<+T> = Ok(value: T) | Err(error: Error)

  datatype Entry = Entry(sha: seq<Byte>, offset: nat, stored: nat, final: nat, encoding: nat)

  /** An encoded blob: the hash of its contents, how the payload is encoded, and the payload. */
  datatype Blob = Blob(sha: seq<Byte>, encoding: nat, final: nat, payload: seq<Byte>)

  datatype PackFile = PackFile(slots: nat, flags: nat, entries: seq<Entry>)

  // ----- layout -----

  /** Where the table ends and the blobs begin. */
  function Base(slots: nat): nat {
    HEADER_SIZE + SLOT_SIZE * slots
  }

  function SlotAt(i: nat): nat {
    HEADER_SIZE + SLOT_SIZE * i
  }

  predicate Fits(e: Entry) {
    |e.sha| == 32 && e.offset < Pow256(4) && e.stored < Pow256(4) && e.final < Pow256(4) && e.encoding < Pow256(4)
  }

  function SlotBytes(e: Entry): (b: seq<Byte>)
    requires Fits(e)
    ensures |b| == SLOT_SIZE
  {
    e.sha + Encoded(e.offset, 4) + Encoded(e.stored, 4) + Encoded(e.final, 4) + Encoded(e.encoding, 4)
  }

  function ParsedSlot(b: seq<Byte>): (e: Entry)
    requires |b| == SLOT_SIZE
    ensures Fits(e)
  {
    Entry(b[..32], Decoded(b[32..36]), Decoded(b[36..40]), Decoded(b[40..44]), Decoded(b[44..48]))
  }

  lemma SlotReads(e: Entry)
    requires Fits(e)
    ensures ParsedSlot(SlotBytes(e)) == e
  {
    hide Encoded, Decoded, Pow256;
    var b := SlotBytes(e);
    var head := e.sha + Encoded(e.offset, 4) + Encoded(e.stored, 4);
    assert |head| == 40 && b == head + Encoded(e.final, 4) + Encoded(e.encoding, 4);
    assert head[..32] == e.sha && head[32..36] == Encoded(e.offset, 4) && head[36..40] == Encoded(e.stored, 4);
    assert b[..32] == head[..32] && b[32..36] == head[32..36] && b[36..40] == head[36..40];
    assert b[40..44] == Encoded(e.final, 4);
    assert b[44..48] == Encoded(e.encoding, 4);
    DecodedEncoded(e.offset, 4);
    DecodedEncoded(e.stored, 4);
    DecodedEncoded(e.final, 4);
    DecodedEncoded(e.encoding, 4);
  }

  function ItemHeader(encoding: nat, final: nat): (h: seq<Byte>)
    ensures |h| == ITEM_HEADER_SIZE
  {
    Encoded(encoding, 4) + Encoded(final, 4) + Zeros(8)
  }

  // ----- reading a table -----

  function Low32(n: nat): nat {
    n % Pow256(4)
  }

  /** Why a file is no version 2 pack, if it is not. The table's size is computed in 32 bits. */
  function TableError(file: seq<Byte>): Result<()> {
    if |file| < 8 then Err(Truncated)
    else if file[..4] != BASE_HEADER[..4] then Err(BadMagic)
    else if file[4] != 1 && file[4] != 2 then Err(BadVersion)
    else if file[5] != 1 && file[5] != 2 then Err(BadType)
    else if file[5] != 2 then Err(BadType)
    else if file[4] == 1 then Err(OtherVersion)
    else if |file| < HEADER_SIZE then Err(Truncated)
    else if Decoded(file[12..16]) > Decoded(file[8..12]) then Err(BadCount)
    else if |file| < HEADER_SIZE + Low32(SLOT_SIZE * Decoded(file[8..12])) then Err(Truncated)
    else Ok(())
  }

  /** The slots in use do not lie in the table that was read, because its size was cut to 32 bits. */
  predicate Wraps(file: seq<Byte>)
    requires |file| >= HEADER_SIZE
  {
    SLOT_SIZE * Decoded(file[12..16]) > Low32(SLOT_SIZE * Decoded(file[8..12]))
  }

  /** That takes a header that declares a table of 4 GiB. */
  lemma OnlyLargeWraps(file: seq<Byte>)
    requires TableError(file).Ok?
    ensures |file| >= HEADER_SIZE && (Wraps(file) ==> SLOT_SIZE * Decoded(file[8..12]) >= Pow256(4))
  {
    hide Decoded, Pow256, Low32;
    Uncut(SLOT_SIZE * Decoded(file[8..12]));
  }

  /** The file itself can be short: 64 bytes that declare 89,478,486 slots, one of them in use. The table's size, cut to
      32 bits, is 32, less than one slot. */
  lemma ShortFileWraps() returns (file: seq<Byte>)
    ensures |file| == 64 && TableError(file) == Ok(()) && Wraps(file)
  {
    file := BASE_HEADER + [5, 85, 85, 86] + [0, 0, 0, 1] + Zeros(48);
    FourBytes(5, 85, 85, 86);
    FourBytes(0, 0, 0, 1);
    assert file[8..12] == [5, 85, 85, 86] && file[12..16] == [0, 0, 0, 1];
    Widths();
    assert Low32(SLOT_SIZE * 89478486) == 32;
  }

  lemma FourBytes(a: Byte, b: Byte, c: Byte, d: Byte)
    ensures Decoded([a, b, c, d]) == ((a * 256 + b) * 256 + c) * 256 + d
  {
    assert [a][..0] == [] && Decoded([a]) == a;
    assert [a, b][..1] == [a] && Decoded([a, b]) == 256 * a + b;
    assert [a, b, c][..2] == [a, b] && Decoded([a, b, c]) == 256 * (256 * a + b) + c;
    assert [a, b, c, d][..3] == [a, b, c];
  }

  lemma Uncut(n: nat)
    ensures n < Pow256(4) ==> Low32(n) == n
  {
    hide Pow256;
  }

  // ----- the order of hashes -----

  /** Bytewise comparison: negative, zero or positive. */
  function Compare(a: seq<Byte>, b: seq<Byte>): int {
    if a == [] || b == [] then |a| - |b|
    else if a[0] != b[0] then a[0] - b[0]
    else Compare(a[1..], b[1..])
  }

  lemma {:induction false} DecodedFirst(s: seq<Byte>)
    requires s != []
    ensures Decoded(s) == s[0] * Pow256(|s| - 1) + Decoded(s[1..])
  {
    hide Pow256;
    if |s| > 1 {
      var n := |s| - 1;
      var t := s[..n];
      DecodedFirst(t);
      assert t[1..] == s[1..][..n - 1];
      assert Decoded(s) == 256 * Decoded(t) + s[n] && Decoded(s[1..]) == 256 * Decoded(t[1..]) + s[n];
      PowerStep(s[0], n);
    } else {
      OneByte(s);
    }
  }

  lemma PowerStep(x: nat, n: nat)
    requires n > 0
    ensures 256 * (x * Pow256(n - 1)) == x * Pow256(n)
  {
    var p := Pow256(n - 1);
    assert Pow256(n) == 256 * p;
    assert 256 * (x * p) == x * (256 * p);
  }

  lemma OneByte(s: seq<Byte>)
    requires |s| == 1
    ensures Decoded(s) == s[0] * Pow256(0) + Decoded(s[1..]) && Pow256(0) == 1
  {
    assert Decoded(s[..0]) == 0 && Decoded(s[1..]) == 0;
  }

  /** Strings of one length compare as the numbers they spell. */
  lemma {:induction false} CompareIsOrder(a: seq<Byte>, b: seq<Byte>)
    requires |a| == |b|
    ensures Compare(a, b) < 0 <==> Decoded(a) < Decoded(b)
    ensures Compare(a, b) == 0 <==> a == b
    ensures Compare(a, b) > 0 <==> Decoded(a) > Decoded(b)
  {
    if a != [] {
      DecodedFirst(a);
      DecodedFirst(b);
      CompareIsOrder(a[1..], b[1..]);
      assert a == [a[0]] + a[1..] && b == [b[0]] + b[1..];
      Scaled(a[0], b[0], Pow256(|a| - 1));
      Scaled(b[0], a[0], Pow256(|a| - 1));
    }
  }

  lemma Scaled(x: int, y: int, p: nat)
    ensures x < y ==> x * p + p <= y * p
    ensures x == y ==> x * p == y * p
  {
    if x < y {
      assert (x + 1) * p <= y * p;
    }
  }

  // ----- a good pack -----

  /** Where an entry's item lies in the file. */
  predicate Apart(e: Entry, f: Entry) {
    e.offset + e.stored + ITEM_HEADER_SIZE <= f.offset || f.offset + f.stored + ITEM_HEADER_SIZE <= e.offset
  }

  /** An entry finds its blob's payload, past the table and inside the file. */
  predicate EntryOk(file: seq<Byte>, slots: nat, blobs: map<seq<Byte>, Blob>, e: Entry) {
    && Fits(e) && e.sha in blobs
    && e.stored == |blobs[e.sha].payload| && e.final == Low32(blobs[e.sha].final)
       && e.encoding == Low32(blobs[e.sha].encoding)
    && Base(slots) + ITEM_HEADER_SIZE <= e.offset && e.offset + e.stored <= |file|
    && file[e.offset..e.offset + e.stored] == blobs[e.sha].payload
  }

  /** Every entry is good, no hash has two, no two overlap, and every blob has one. */
  predicate EntriesOk(file: seq<Byte>, slots: nat, blobs: map<seq<Byte>, Blob>, entries: seq<Entry>) {
    && (forall i | 0 <= i < |entries| :: EntryOk(file, slots, blobs, entries[i]))
    && (forall i, j | 0 <= i < j < |entries| :: entries[i].sha != entries[j].sha && Apart(entries[i], entries[j]))
    && (forall sha | sha in blobs :: HasEntry(entries, sha))
  }

  predicate HasEntry(entries: seq<Entry>, sha: seq<Byte>) {
    exists i :: 0 <= i < |entries| && entries[i].sha == sha
  }

  /** The table spells the entries. */
  predicate TableOk(file: seq<Byte>, slots: nat, entries: seq<Entry>) {
    && |entries| <= slots && Base(slots) <= |file|
    && forall i | 0 <= i < |entries| :: SlotOk(file, i, entries[i])
  }

  predicate SlotOk(file: seq<Byte>, i: nat, e: Entry) {
    Fits(e) && SlotAt(i) + SLOT_SIZE <= |file| && file[SlotAt(i)..SlotAt(i) + SLOT_SIZE] == SlotBytes(e)
  }

  predicate HeaderOk(file: seq<Byte>, slots: nat, used: nat, flags: nat) {
    && |file| >= HEADER_SIZE && file[..8] == BASE_HEADER && file[8..12] == Encoded(slots, 4)
    && file[12..16] == Encoded(used, 4) && file[16..20] == Encoded(flags, 4)
  }

  predicate Sorted(entries: seq<Entry>) {
    forall i, j | 0 <= i < j < |entries| :: Decoded(entries[i].sha) < Decoded(entries[j].sha)
  }

  /** The slot a table holds at `i`. */
  function EntryAt(file: seq<Byte>, i: nat): Entry
    requires SlotAt(i) + SLOT_SIZE <= |file|
  {
    ParsedSlot(file[SlotAt(i)..SlotAt(i) + SLOT_SIZE])
  }

  /** Reading a sealed pack's file gives back its header and its entries. */
  lemma SealedReads(file: seq<Byte>, slots: nat, entries: seq<Entry>)
    requires HeaderOk(file, slots, |entries|, FLAG_SEALED) && TableOk(file, slots, entries) && Base(slots) < Pow256(4)
    ensures TableError(file) == Ok(()) && Decoded(file[8..12]) == slots && Decoded(file[12..16]) == |entries|
             && Decoded(file[16..20]) == FLAG_SEALED
    ensures forall i | 0 <= i < |entries| :: EntryAt(file, i) == entries[i]
  {
    hide Encoded, Decoded, SlotBytes, ParsedSlot;
    Widths();
    DecodedEncoded(slots, 4);
    DecodedEncoded(|entries|, 4);
    DecodedEncoded(FLAG_SEALED, 4);
    assert file[..4] == file[..8][..4] && file[4] == file[..8][4] && file[5] == file[..8][5];
    assert Low32(SLOT_SIZE * slots) == SLOT_SIZE * slots;
    forall i | 0 <= i < |entries|
      ensures EntryAt(file, i) == entries[i]
    {
      assert SlotOk(file, i, entries[i]);
      SlotReads(entries[i]);
    }
  }

  // ----- changing the file -----

  /** Two files hold the same bytes from `a` to `b`. */
  predicate Agree(file: seq<Byte>, other: seq<Byte>, a: nat, b: nat) {
    a <= b <= |file| && b <= |other| && file[a..b] == other[a..b]
  }

  lemma AgreeWithin(file: seq<Byte>, other: seq<Byte>, a: nat, b: nat, c: nat, d: nat)
    requires Agree(file, other, a, b) && a <= c <= d <= b
    ensures file[c..d] == other[c..d]
  {
    SubSlice(file, a, b, c, d);
    SubSlice(other, a, b, c, d);
  }

  /** Entries depend only on what lies past the table, and on their own blobs. */
  lemma EntriesMoved(file: seq<Byte>, other: seq<Byte>, slots: nat, blobs: map<seq<Byte>, Blob>, entries: seq<Entry>)
    requires EntriesOk(file, slots, blobs, entries) && Agree(file, other, Base(slots), |file|)
    ensures EntriesOk(other, slots, blobs, entries)
  {
    hide EntryOk, Apart, HasEntry, Agree;
    forall i | 0 <= i < |entries|
      ensures EntryOk(other, slots, blobs, entries[i])
    {
      EntryMoved(file, other, slots, blobs, entries[i]);
    }
  }

  lemma EntryMoved(file: seq<Byte>, other: seq<Byte>, slots: nat, blobs: map<seq<Byte>, Blob>, e: Entry)
    requires EntryOk(file, slots, blobs, e) && Agree(file, other, Base(slots), |file|)
    ensures EntryOk(other, slots, blobs, e)
  {
    hide Fits, Low32;
    AgreeWithin(file, other, Base(slots), |file|, e.offset, e.offset + e.stored);
  }

  lemma TableMoved(file: seq<Byte>, other: seq<Byte>, slots: nat, entries: seq<Entry>)
    requires TableOk(file, slots, entries) && Agree(file, other, HEADER_SIZE, Base(slots))
    ensures TableOk(other, slots, entries)
  {
    hide Fits, SlotBytes;
    forall i | 0 <= i < |entries|
      ensures SlotOk(other, i, entries[i])
    {
      assert SlotOk(file, i, entries[i]);
      AgreeWithin(file, other, HEADER_SIZE, Base(slots), SlotAt(i), SlotAt(i) + SLOT_SIZE);
    }
  }

  lemma HeaderMoved(file: seq<Byte>, other: seq<Byte>, slots: nat, used: nat, flags: nat)
    requires HeaderOk(file, slots, used, flags) && Agree(file, other, 0, HEADER_SIZE)
    ensures HeaderOk(other, slots, used, flags)
  {
    hide Encoded;
    AgreeWithin(file, other, 0, HEADER_SIZE, 0, 8);
    AgreeWithin(file, other, 0, HEADER_SIZE, 8, 12);
    AgreeWithin(file, other, 0, HEADER_SIZE, 12, 16);
    AgreeWithin(file, other, 0, HEADER_SIZE, 16, 20);
  }

  /** One more blob, whose item lies past all the others. */
  lemma EntryAdded(file: seq<Byte>, slots: nat, blobs: map<seq<Byte>, Blob>, entries: seq<Entry>, blob: Blob, e: Entry)
    requires EntriesOk(file, slots, blobs, entries) && blob.sha !in blobs && e.sha == blob.sha
    requires EntryOk(file, slots, map[blob.sha := blob], e)
    requires forall i | 0 <= i < |entries| :: entries[i].offset + entries[i].stored + ITEM_HEADER_SIZE <= e.offset
    ensures EntriesOk(file, slots, blobs[blob.sha := blob], entries + [e])
  {
    hide Fits, Low32;
    var more, all := blobs[blob.sha := blob], entries + [e];
    forall i | 0 <= i < |all|
      ensures EntryOk(file, slots, more, all[i])
    {
      if i < |entries| {
        assert EntryOk(file, slots, blobs, entries[i]);
      }
    }
    forall i, j | 0 <= i < j < |all|
      ensures all[i].sha != all[j].sha && Apart(all[i], all[j])
    {
      assert EntryOk(file, slots, blobs, entries[i]);
    }
    forall sha | sha in more
      ensures HasEntry(all, sha)
    {
      if sha == blob.sha {
        assert all[|entries|].sha == sha;
      } else {
        assert HasEntry(entries, sha);
        var i :| 0 <= i < |entries| && entries[i].sha == sha;
        assert all[i].sha == sha;
      }
    }
  }
}
