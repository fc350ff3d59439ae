/** EROFS extended attributes: entries in the inode's own area, entries in a table the image shares, and the
    reader that puts the two together. */
module Xattr {
  import opened Bytes
  import opened BigEndian
  import opened LittleEndian

  datatype Error = NameTooLong | ValueTooLong | BadArea | NoTable | BadTable

  datatype Result<+T> = Ok(value: T) | Err(error: Error)

  datatype Attr = Attr(key: seq<Byte>, val: seq<Byte>)

  type Attrs = map<seq<Byte>, seq<Byte>>

  // ----- names -----

  const USER: seq<Byte> := [117, 115, 101, 114, 46]
  const ACL_ACCESS: seq<Byte> := [115, 121, 115, 116, 101, 109, 46, 112, 111, 115, 105, 120, 95, 97, 99, 108, 95, 97,
      99, 99, 101, 115, 115]
  const ACL_DEFAULT: seq<Byte> := [115, 121, 115, 116, 101, 109, 46, 112, 111, 115, 105, 120, 95, 97, 99, 108, 95, 100,
      101, 102, 97, 117, 108, 116]
  const TRUSTED: seq<Byte> := [116, 114, 117, 115, 116, 101, 100, 46]
  const SECURITY: seq<Byte> := [115, 101, 99, 117, 114, 105, 116, 121, 46]

  function PrefixOf(index: nat): seq<Byte> {
    if index == 1 then USER
    else if index == 2 then ACL_ACCESS
    else if index == 3 then ACL_DEFAULT
    else if index == 4 then TRUSTED
    else if index == 5 then SECURITY
    else []
  }

  /** The index of the well-known prefix a name has. */
  function PrefixIndex(key: seq<Byte>): Byte {
    if USER <= key then 1
    else if ACL_ACCESS <= key then 2
    else if ACL_DEFAULT <= key then 3
    else if TRUSTED <= key then 4
    else if SECURITY <= key then 5
    else 0
  }

  function Suffix(key: seq<Byte>): seq<Byte> {
    key[|PrefixOf(PrefixIndex(key))|..]
  }

  function FullName(index: nat, suffix: seq<Byte>): seq<Byte> {
    PrefixOf(index) + suffix
  }

  /** A name is its prefix and the rest. */
  lemma NameReadsBack(key: seq<Byte>)
    ensures FullName(PrefixIndex(key), Suffix(key)) == key
  {
  }

  // ----- entries -----

  function Pad(n: nat): nat {
    (4 - n % 4) % 4
  }

  predicate Encodable(a: Attr) {
    |Suffix(a.key)| <= 255 && |a.val| <= 65535
  }

  function RawLen(a: Attr): nat {
    4 + |Suffix(a.key)| + |a.val|
  }

  function Entry(a: Attr): (b: seq<Byte>)
    requires Encodable(a)
    ensures |b| == RawLen(a) + Pad(RawLen(a)) && |b| % 4 == 0 && |b| >= 4
  {
    [|Suffix(a.key)|, PrefixIndex(a.key)] + Put(|a.val|, 2) + Suffix(a.key) + a.val + Zeros(Pad(RawLen(a)))
  }

  function Lengths(buf: seq<Byte>, at: nat): (nat, nat)
    requires at + 4 <= |buf|
  {
    (buf[at], Get(buf[at + 2..at + 4]))
  }

  function AttrAt(buf: seq<Byte>, at: nat): Attr
    requires at + 4 <= |buf| && at + 4 + Lengths(buf, at).0 + Lengths(buf, at).1 <= |buf|
  {
    var (n, v) := Lengths(buf, at);
    Attr(FullName(buf[at + 1], buf[at + 4..at + 4 + n]), buf[at + 4 + n..at + 4 + n + v])
  }

  lemma Middle(a: seq<Byte>, b: seq<Byte>, c: seq<Byte>)
    ensures (a + b + c)[|a|..|a| + |b|] == b
  {
  }

  lemma EntryParts(a: Attr)
    requires Encodable(a)
    ensures var e, n, v := Entry(a), |Suffix(a.key)|, |a.val|;
            && e[0] == n && e[1] == PrefixIndex(a.key) && e[2..4] == Put(v, 2)
            && e[4..4 + n] == Suffix(a.key) && e[4 + n..4 + n + v] == a.val
  {
    hide Put, Suffix, PrefixIndex, Zeros;
    var head: seq<Byte>, put, suffix, pad := [|Suffix(a.key)|, PrefixIndex(a.key)], Put(|a.val|, 2), Suffix(a.key),
        Zeros(Pad(RawLen(a)));
    assert Entry(a) == head + put + (suffix + a.val + pad);
    Middle(head, put, suffix + a.val + pad);
    assert Entry(a) == (head + put) + suffix + (a.val + pad);
    Middle(head + put, suffix, a.val + pad);
    Middle(head + put + suffix, a.val, pad);
  }

  /** An entry's bytes at `at` read back as the entry. */
  lemma EntryReads(buf: seq<Byte>, at: nat, a: Attr)
    requires Encodable(a) && at + |Entry(a)| <= |buf| && buf[at..at + |Entry(a)|] == Entry(a)
    ensures Lengths(buf, at) == (|Suffix(a.key)|, |a.val|) && AttrAt(buf, at) == a
  {
    hide Put, Get, Suffix, PrefixIndex, FullName, Pow256, Entry;
    Widths();
    GetPut(|a.val|, 2);
    NameReadsBack(a.key);
    var e, n, v := Entry(a), |Suffix(a.key)|, |a.val|;
    var end := at + |e|;
    EntryParts(a);
    SubSlice(buf, at, end, at + 2, at + 4);
    SubSlice(buf, at, end, at + 4, at + 4 + n);
    SubSlice(buf, at, end, at + 4 + n, at + 4 + n + v);
    assert buf[at] == buf[at..end][0] && buf[at + 1] == buf[at..end][1];
  }

  /** Encode an attribute. It fails exactly on a long name or value, and what it encodes reads back. */
  method EncodeEntry(a: Attr) returns (r: Result<seq<Byte>>)
    ensures r.Ok? <==> Encodable(a)
    ensures r.Err? ==> r.error == if |Suffix(a.key)| > 255 then NameTooLong else ValueTooLong
    ensures r.Ok? ==> r.value == Entry(a) && 4 + |Suffix(a.key)| + |a.val| <= |r.value|
    ensures r.Ok? ==> Lengths(r.value, 0) == (|Suffix(a.key)|, |a.val|)
    ensures r.Ok? ==> AttrAt(r.value, 0) == a
  {
    hide Suffix, Entry, Lengths, AttrAt;
    if |Suffix(a.key)| > 255 {
      return Err(NameTooLong);
    }
    if |a.val| > 65535 {
      return Err(ValueTooLong);
    }
    var e := Entry(a);
    assert e[0..|e|] == e;
    EntryReads(e, 0, a);
    r := Ok(e);
  }

  predicate AllEncodable(attrs: seq<Attr>) {
    forall i | 0 <= i < |attrs| :: Encodable(attrs[i])
  }

  function Entries(attrs: seq<Attr>): seq<Byte>
    requires AllEncodable(attrs)
  {
    if attrs == [] then [] else Entry(attrs[0]) + Entries(attrs[1..])
  }

  // ----- the inline area -----

  /** An inline entry with neither suffix nor value looks like the end of the list. */
  predicate Visible(a: Attr) {
    Suffix(a.key) != [] || a.val != []
  }

  /** The attributes from `at` on, up to the end or the first empty or cut-off entry. */
  function InlineFrom(buf: seq<Byte>, at: nat): seq<Attr>
    decreases |buf| - at
  {
    if at + 4 > |buf| then [] else
    var (n, v) := Lengths(buf, at);
    if (n == 0 && v == 0) || at + 4 + n + v > |buf| then [] else
    [AttrAt(buf, at)] + InlineFrom(buf, at + 4 + n + v + Pad(4 + n + v))
  }

  /** Entries up to the end of the area read back as they are if and only if all of them are visible. */
  lemma {:induction false} InlineReads(buf: seq<Byte>, at: nat, attrs: seq<Attr>)
    requires AllEncodable(attrs) && at <= |buf| && buf[at..] == Entries(attrs)
    ensures InlineFrom(buf, at) == attrs <==> forall i | 0 <= i < |attrs| :: Visible(attrs[i])
    decreases |attrs|
  {
    hide Entry, Suffix, AttrAt, Lengths;
    if attrs == [] {
      assert |buf| == at;
    } else {
      var a := attrs[0];
      var e := Entry(a);
      var next := at + |e|;
      assert buf[at..][..|e|] == e && buf[at..][|e|..] == Entries(attrs[1..]);
      assert buf[at..next] == e && buf[next..] == Entries(attrs[1..]);
      EntryReads(buf, at, a);
      InlineReads(buf, next, attrs[1..]);
      assert attrs == [a] + attrs[1..];
      assert Visible(a) ==> InlineFrom(buf, at) == [a] + InlineFrom(buf, next);
    }
  }

  /** Whatever they are, what is read is among them and visible. */
  lemma {:induction false} InlineVisible(buf: seq<Byte>, at: nat, attrs: seq<Attr>)
    requires AllEncodable(attrs) && at <= |buf| && buf[at..] == Entries(attrs)
    ensures forall a | a in InlineFrom(buf, at) :: a in attrs && Visible(a)
    decreases |attrs|
  {
    hide Entry, Suffix, AttrAt, Lengths;
    if attrs == [] {
      assert |buf| == at;
    } else {
      var a := attrs[0];
      var e := Entry(a);
      var next := at + |e|;
      assert buf[at..][..|e|] == e && buf[at..][|e|..] == Entries(attrs[1..]);
      assert buf[at..next] == e && buf[next..] == Entries(attrs[1..]);
      EntryReads(buf, at, a);
      InlineVisible(buf, next, attrs[1..]);
      assert Visible(a) ==> InlineFrom(buf, at) == [a] + InlineFrom(buf, next);
    }
  }

  lemma LongIsVisible(a: Attr)
    requires Encodable(a) && |Entry(a)| > 4
    ensures Visible(a)
  {
    hide Entry, Suffix;
  }

  /** One that is not: the key is the prefix alone and the value is empty. The reader finds nothing. */
  lemma InvisibleIsLost()
    ensures var a := Attr(USER, []); Encodable(a) && !Visible(a) && InlineFrom(Entry(a), 0) == []
  {
    var a := Attr(USER, []);
    assert PrefixIndex(USER) == 1 && PrefixOf(1) == USER;
    assert Suffix(USER) == [];
    var e := Entry(a);
    assert e[0..|e|] == e;
    EntryReads(e, 0, a);
  }

  // ----- the shared table -----

  function SharedAt(table: seq<Byte>, id: nat): Result<Attr> {
    var at := 4 * id;
    if at + 4 > |table| then Err(BadTable)
    else if at + 4 + Lengths(table, at).0 + Lengths(table, at).1 > |table| then Err(BadTable)
    else Ok(AttrAt(table, at))
  }

  /** Entry `a` is in the table under `id`. */
  predicate InTable(table: seq<Byte>, id: nat, a: Attr) {
    Encodable(a) && 4 * id + |Entry(a)| <= |table| && table[4 * id..4 * id + |Entry(a)|] == Entry(a)
  }

  lemma SharedReads(table: seq<Byte>, id: nat, a: Attr)
    requires InTable(table, id, a)
    ensures SharedAt(table, id) == Ok(a)
  {
    hide Entry, AttrAt, Lengths, Suffix;
    EntryReads(table, 4 * id, a);
  }

  function MapOf(attrs: seq<Attr>): Attrs {
    if attrs == [] then map[] else MapOf(attrs[..|attrs| - 1])[attrs[|attrs| - 1].key := attrs[|attrs| - 1].val]
  }

  predicate HeldAt(data: seq<Byte>, id: nat, e: seq<Byte>) {
    4 * id + |e| <= |data| && data[4 * id..4 * id + |e|] == e
  }

  /** The table built so far holds each pool entry where the pool says. */
  ghost predicate PoolOk(pool: map<seq<Byte>, nat>, data: seq<Byte>) {
    |data| % 4 == 0 && forall e | e in pool :: HeldAt(data, pool[e], e)
  }

  /** Put entries into the table, each distinct one once, and note where they are. */
  method ShareEntries(attrs: seq<Attr>) returns (ids: seq<nat>, data: seq<Byte>)
    requires AllEncodable(attrs)
    ensures |ids| == |attrs| && forall i | 0 <= i < |attrs| :: InTable(data, ids[i], attrs[i])
    ensures forall i, j | 0 <= i < j < |attrs| && Entry(attrs[i]) == Entry(attrs[j]) :: ids[i] == ids[j]
    ensures |data| % 4 == 0
  {
    hide Entry, Suffix, HeldAt;
    var pool: map<seq<Byte>, nat> := map[];
    ids, data := [], [];
    var i := 0;
    while i < |attrs|
      invariant 0 <= i <= |attrs| && |ids| == i && PoolOk(pool, data)
      invariant forall j | 0 <= j < i :: Entry(attrs[j]) in pool && ids[j] == pool[Entry(attrs[j])]
    {
      var e := Entry(attrs[i]);
      if e in pool {
        ids := ids + [pool[e]];
      } else {
        var id := |data| / 4;
        PoolGrows(pool, data, e);
        pool, data, ids := pool[e := id], data + e, ids + [id];
      }
      i := i + 1;
    }
    forall j | 0 <= j < |attrs|
      ensures InTable(data, ids[j], attrs[j])
    {
      HeldIsIn(data, ids[j], attrs[j]);
    }
  }

  lemma HeldIsIn(data: seq<Byte>, id: nat, a: Attr)
    requires Encodable(a) && HeldAt(data, id, Entry(a))
    ensures InTable(data, id, a)
  {
    hide Entry;
  }

  lemma PoolGrows(pool: map<seq<Byte>, nat>, data: seq<Byte>, e: seq<Byte>)
    requires PoolOk(pool, data) && |e| % 4 == 0 && e !in pool
    ensures PoolOk(pool[e := |data| / 4], data + e)
  {
    hide HeldAt;
    var more := pool[e := |data| / 4];
    HeldLast(data, e);
    forall x | x in more
      ensures HeldAt(data + e, more[x], x)
    {
      if x != e {
        HeldLonger(data, e, pool[x], x);
      }
    }
  }

  lemma HeldLonger(data: seq<Byte>, more: seq<Byte>, id: nat, e: seq<Byte>)
    requires HeldAt(data, id, e)
    ensures HeldAt(data + more, id, e)
  {
    assert (data + more)[4 * id..4 * id + |e|] == data[4 * id..4 * id + |e|];
  }

  lemma HeldLast(data: seq<Byte>, e: seq<Byte>)
    requires |data| % 4 == 0
    ensures HeldAt(data + e, |data| / 4, e)
  {
    assert 4 * (|data| / 4) == |data|;
  }

  // ----- an inode's area -----

  function IdBytes(ids: seq<nat>): (b: seq<Byte>)
    ensures |b| == 4 * |ids|
  {
    if ids == [] then [] else Put(ids[0], 4) + IdBytes(ids[1..])
  }

  /** The header with the number of shared entries, their ids, and the inline entries. */
  function Area(ids: seq<nat>, inline: seq<Attr>): (b: seq<Byte>)
    requires |ids| <= 255 && AllEncodable(inline)
  {
    [0, 0, 0, 0, |ids|] + Zeros(7) + IdBytes(ids) + Entries(inline)
  }

  function SharedFrom(buf: seq<Byte>, table: seq<Byte>, i: nat, count: nat): Result<seq<Attr>>
    requires i <= count && 12 + 4 * count <= |buf|
    decreases count - i
  {
    if i == count then Ok([]) else
    var a := SharedAt(table, Get(buf[12 + 4 * i..16 + 4 * i]));
    if a.Err? then Err(a.error) else
    var rest := SharedFrom(buf, table, i + 1, count);
    if rest.Err? then rest else Ok([a.value] + rest.value)
  }

  /** Everything the reader finds, shared entries first. */
  function Found(buf: seq<Byte>, table: seq<Byte>, hasTable: bool): Result<seq<Attr>> {
    if |buf| < 12 then Err(BadArea)
    else
      var count: nat := buf[4];
      if 12 + 4 * count > |buf| then Err(BadArea)
      else if count > 0 && !hasTable then Err(NoTable)
      else
        var shared := SharedFrom(buf, table, 0, count);
        if shared.Err? then shared else Ok(shared.value + InlineFrom(buf, 12 + 4 * count))
  }

  /** Read an inode's attributes: the shared ones by id, then the inline ones. */
  method ReadXattrs(buf: seq<Byte>, table: seq<Byte>, hasTable: bool) returns (r: Result<Attrs>)
    ensures r == match Found(buf, table, hasTable) case Ok(attrs) => Ok(MapOf(attrs)) case Err(e) => Err(e)
  {
    hide SharedFrom, InlineFrom, MapOf;
    if |buf| < 12 {
      return Err(BadArea);
    }
    var count: nat := buf[4];
    var end := 12 + 4 * count;
    if end > |buf| {
      return Err(BadArea);
    }
    if count > 0 && !hasTable {
      return Err(NoTable);
    }
    var shared := ReadShared(buf, table, count);
    if shared.Err? {
      return shared;
    }
    ghost var seen := SharedFrom(buf, table, 0, count).value;
    var res := ReadInline(buf, end, shared.value, seen);
    r := Ok(res);
  }

  method ReadShared(buf: seq<Byte>, table: seq<Byte>, count: nat) returns (r: Result<Attrs>)
    requires 12 + 4 * count <= |buf|
    ensures r == match SharedFrom(buf, table, 0, count) case Ok(attrs) => Ok(MapOf(attrs)) case Err(e) => Err(e)
  {
    hide SharedAt, SharedFrom, MapOf, Get;
    SharedEnd(buf, table, count);
    var res: Attrs, i := map[], 0;
    ghost var seen: seq<Attr>, shared := [], SharedFrom(buf, table, 0, count);
    assert shared.Ok? ==> seen + shared.value == shared.value;
    while i < count
      invariant 0 <= i <= count && res == MapOf(seen)
      invariant var rest := SharedFrom(buf, table, i, count); shared == if rest.Err? then rest
                else Ok(seen + rest.value)
    {
      var a := SharedAt(table, Get(buf[12 + 4 * i..16 + 4 * i]));
      SharedStep(buf, table, i, count, seen);
      if a.Err? {
        return Err(a.error);
      }
      Snoc(seen, a.value);
      res := res[a.value.key := a.value.val];
      seen := seen + [a.value];
      i := i + 1;
    }
    assert seen + [] == seen;
    r := Ok(res);
  }

  method ReadInline(buf: seq<Byte>, from: nat, shared: Attrs, ghost before: seq<Attr>) returns (res: Attrs)
    requires shared == MapOf(before)
    ensures res == MapOf(before + InlineFrom(buf, from))
  {
    hide AttrAt, Lengths;
    var at := from;
    res := shared;
    ghost var seen := before;
    while at < |buf|
      invariant res == MapOf(seen) && before + InlineFrom(buf, from) == seen + InlineFrom(buf, at)
      decreases |buf| - at
    {
      if at + 4 > |buf| {
        break;
      }
      var (n, v) := Lengths(buf, at);
      if (n == 0 && v == 0) || at + 4 + n + v > |buf| {
        break;
      }
      var a := AttrAt(buf, at);
      Snoc(seen, a);
      InlineStep(buf, at, seen);
      res := res[a.key := a.val];
      seen := seen + [a];
      at := at + 4 + n + v + Pad(4 + n + v);
    }
    assert seen + [] == seen;
  }

  lemma Snoc(attrs: seq<Attr>, a: Attr)
    ensures MapOf(attrs + [a]) == MapOf(attrs)[a.key := a.val]
  {
    assert (attrs + [a])[..|attrs|] == attrs;
  }

  lemma SharedEnd(buf: seq<Byte>, table: seq<Byte>, count: nat)
    requires 12 + 4 * count <= |buf|
    ensures SharedFrom(buf, table, count, count) == Ok([]) && MapOf([]) == map[]
  {
  }

  lemma SharedStep(buf: seq<Byte>, table: seq<Byte>, i: nat, count: nat, seen: seq<Attr>)
    requires i < count && 12 + 4 * count <= |buf|
    ensures var a, r, rest := SharedAt(table, Get(buf[12 + 4 * i..16 + 4 * i])), SharedFrom(buf, table, i, count),
        SharedFrom(buf, table, i + 1, count);
            && (a.Err? ==> r == Err(a.error))
            && (a.Ok? && rest.Err? ==> r == rest)
            && (a.Ok? && rest.Ok? ==> r.Ok? && seen + r.value == (seen + [a.value]) + rest.value)
  {
    hide SharedAt;
  }

  lemma InlineStep(buf: seq<Byte>, at: nat, seen: seq<Attr>)
    requires at + 4 <= |buf|
    requires var (n, v) := Lengths(buf, at); !(n == 0 && v == 0) && at + 4 + n + v <= |buf|
    ensures var (n, v) := Lengths(buf, at);
            seen + InlineFrom(buf, at) == (seen + [AttrAt(buf, at)]) + InlineFrom(buf, at + 4 + n + v + Pad(4 + n + v))
  {
    hide AttrAt, Lengths;
  }

  // ----- reading back -----

  lemma {:induction false} IdAt(ids: seq<nat>, i: nat)
    requires i < |ids|
    ensures IdBytes(ids)[4 * i..4 * i + 4] == Put(ids[i], 4)
    decreases |ids|
  {
    hide Put;
    if i == 0 {
      assert IdBytes(ids)[0..4] == Put(ids[0], 4);
    } else {
      IdAt(ids[1..], i - 1);
      var b, rest := IdBytes(ids), IdBytes(ids[1..]);
      assert b[4..] == rest;
      assert b[4 * i..4 * i + 4] == rest[4 * (i - 1)..4 * (i - 1) + 4];
    }
  }

  /** The parts of an area. */
  lemma AreaParts(ids: seq<nat>, inline: seq<Attr>)
    requires |ids| <= 255 && AllEncodable(inline)
    ensures var b := Area(ids, inline);
            && |b| >= 12 + 4 * |ids| && b[4] == |ids| && b[12..12 + 4 * |ids|] == IdBytes(ids)
               && b[12 + 4 * |ids|..] == Entries(inline)
  {
    hide IdBytes, Entries;
  }

  lemma {:induction false} SharedAll(buf: seq<Byte>, table: seq<Byte>, ids: seq<nat>, shared: seq<Attr>, i: nat)
    requires i <= |ids| == |shared| && 12 + 4 * |ids| <= |buf| && buf[12..12 + 4 * |ids|] == IdBytes(ids)
    requires forall k | 0 <= k < |ids| :: ids[k] < Pow256(4) && InTable(table, ids[k], shared[k])
    ensures SharedFrom(buf, table, i, |ids|) == Ok(shared[i..])
    decreases |ids| - i
  {
    hide SharedAt, InTable, IdBytes, Get, Put, Pow256;
    if i < |ids| {
      SharedAll(buf, table, ids, shared, i + 1);
      IdAt(ids, i);
      SubSlice(buf, 12, 12 + 4 * |ids|, 12 + 4 * i, 16 + 4 * i);
      GetPut(ids[i], 4);
      SharedReads(table, ids[i], shared[i]);
      assert shared[i..] == [shared[i]] + shared[i + 1..];
    } else {
      assert shared[i..] == [];
    }
  }

  /** Whatever entries are shared and whatever are inline, reading gives them all back. */
  lemma AreaReadsBack(ids: seq<nat>, shared: seq<Attr>, inline: seq<Attr>, table: seq<Byte>)
    requires |ids| == |shared| <= 255 && AllEncodable(inline) && (forall i | 0 <= i < |inline| :: Visible(inline[i]))
    requires forall k | 0 <= k < |ids| :: ids[k] < Pow256(4) && InTable(table, ids[k], shared[k])
    ensures Found(Area(ids, inline), table, true) == Ok(shared + inline)
  {
    hide InTable, IdBytes, Entries, Area, Visible, Pow256, SharedFrom, InlineFrom, Encodable;
    var b := Area(ids, inline);
    AreaParts(ids, inline);
    SharedAll(b, table, ids, shared, 0);
    assert shared[0..] == shared;
    InlineReads(b, 12 + 4 * |ids|, inline);
  }

  /** Whether they are visible or not, the shared ones are read back and of the inline ones none but visible ones. */
  lemma AreaFinds(ids: seq<nat>, shared: seq<Attr>, inline: seq<Attr>, table: seq<Byte>) returns (seen: seq<Attr>)
    requires |ids| == |shared| <= 255 && AllEncodable(inline)
    requires forall k | 0 <= k < |ids| :: ids[k] < Pow256(4) && InTable(table, ids[k], shared[k])
    ensures Found(Area(ids, inline), table, true) == Ok(shared + seen)
    ensures forall a | a in seen :: a in inline && Visible(a)
  {
    hide InTable, IdBytes, Entries, Area, Visible, Pow256, SharedFrom, InlineFrom, Encodable;
    var b := Area(ids, inline);
    AreaParts(ids, inline);
    SharedAll(b, table, ids, shared, 0);
    assert shared[0..] == shared;
    InlineVisible(b, 12 + 4 * |ids|, inline);
    seen := InlineFrom(b, 12 + 4 * |ids|);
  }

  // ----- the attribute map -----

  lemma {:induction false} MapOfKeys(attrs: seq<Attr>)
    ensures forall k | k in MapOf(attrs) :: exists i :: 0 <= i < |attrs| && attrs[i].key == k
    ensures forall i | 0 <= i < |attrs| :: attrs[i].key in MapOf(attrs)
  {
    if attrs != [] {
      MapOfKeys(attrs[..|attrs| - 1]);
    }
  }

  ghost predicate DistinctKeys(attrs: seq<Attr>) {
    forall i, j | 0 <= i < j < |attrs| :: attrs[i].key != attrs[j].key
  }

  /** Attributes with distinct keys are the map they spell. */
  lemma {:induction false} MapOfIs(attrs: seq<Attr>, m: Attrs)
    requires DistinctKeys(attrs)
             && (forall i | 0 <= i < |attrs| :: attrs[i].key in m && m[attrs[i].key] == attrs[i].val)
    ensures forall k | k in MapOf(attrs) :: k in m && m[k] == MapOf(attrs)[k]
    ensures forall i | 0 <= i < |attrs| :: attrs[i].key in MapOf(attrs)
  {
    if attrs != [] {
      MapOfIs(attrs[..|attrs| - 1], m);
    }
  }

  /** However a file's attributes are split between the table and the inode, the reader returns the same map. */
  lemma AttributesReadBack(m: Attrs, ids: seq<nat>, shared: seq<Attr>, inline: seq<Attr>, table: seq<Byte>)
    requires |ids| == |shared| <= 255 && AllEncodable(inline) && (forall i | 0 <= i < |inline| :: Visible(inline[i]))
    requires forall k | 0 <= k < |ids| :: ids[k] < Pow256(4) && InTable(table, ids[k], shared[k])
    requires Spells(shared + inline, m)
    ensures Found(Area(ids, inline), table, true).Ok? && MapOf(Found(Area(ids, inline), table, true).value) == m
  {
    hide Found, Area, InTable, Visible, Pow256;
    AreaReadsBack(ids, shared, inline, table);
    var all := shared + inline;
    MapOfIs(all, m);
    forall k | k in m
      ensures k in MapOf(all)
    {
      var i :| 0 <= i < |all| && all[i].key == k;
    }
  }

  /** Each attribute of the map once. */
  ghost predicate Spells(attrs: seq<Attr>, m: Attrs) {
    && DistinctKeys(attrs)
    && (forall i | 0 <= i < |attrs| :: attrs[i].key in m && m[attrs[i].key] == attrs[i].val)
    && forall k | k in m :: exists i :: 0 <= i < |attrs| && attrs[i].key == k
  }

  // ----- the reserved attributes -----

  const DIGEST: seq<Byte> := USER + [100, 105, 103, 101, 115, 116]
  const SHA256: seq<Byte> := USER + [115, 104, 97, 50, 53, 54]
  const MANIFEST: seq<Byte> := USER + [111, 98, 106, 101, 99, 116, 102, 115, 46, 109, 97, 110, 105, 102, 101, 115, 116]

  datatype Xattrs = Xattrs(digest: seq<Byte>, sha256: seq<Byte>, manifest: seq<Byte>, others: Attrs)

  predicate Reserved(k: seq<Byte>) {
    k == DIGEST || k == SHA256 || k == MANIFEST
  }

  function With(m: Attrs, k: seq<Byte>, v: seq<Byte>): Attrs {
    if v == [] then m else m[k := v]
  }

  function ToMap(x: Xattrs): Attrs {
    With(With(With(map[], DIGEST, x.digest), SHA256, x.sha256), MANIFEST, x.manifest) + x.others
  }

  function ValueOf(m: Attrs, k: seq<Byte>): seq<Byte> {
    if k in m then m[k] else []
  }

  function FromMap(m: Attrs): Xattrs {
    Xattrs(ValueOf(m, DIGEST), ValueOf(m, SHA256), ValueOf(m, MANIFEST), map k | k in m && !Reserved(k) :: m[k])
  }

  lemma ReservedDiffer()
    ensures DIGEST != SHA256 && SHA256 != MANIFEST && DIGEST != MANIFEST
  {
    assert DIGEST[5] != SHA256[5] && SHA256[5] != MANIFEST[5] && DIGEST[5] != MANIFEST[5];
  }

  /** What the map form holds under a name. */
  lemma MapAt(x: Xattrs, k: seq<Byte>)
    ensures k in ToMap(x) <==>
            k in x.others || (k == DIGEST && x.digest != []) || (k == SHA256 && x.sha256 != [])
            || (k == MANIFEST && x.manifest != [])
    ensures k in x.others ==> ToMap(x)[k] == x.others[k]
    ensures k !in x.others && k == DIGEST ==> ValueOf(ToMap(x), k) == x.digest
    ensures k !in x.others && k == SHA256 ==> ValueOf(ToMap(x), k) == x.sha256
    ensures k !in x.others && k == MANIFEST ==> ValueOf(ToMap(x), k) == x.manifest
  {
    ReservedDiffer();
  }

  /** The attributes survive the map form if and only if no reserved name is among the others. */
  lemma MapFormIff(x: Xattrs)
    ensures FromMap(ToMap(x)) == x <==> forall k | k in x.others :: !Reserved(k)
  {
    hide ToMap;
    if forall k | k in x.others :: !Reserved(k) {
      MapAt(x, DIGEST);
      MapAt(x, SHA256);
      MapAt(x, MANIFEST);
      SameOthers(x);
    } else {
      var k :| k in x.others && Reserved(k);
      LosesReserved(x, k);
    }
  }

  lemma SameOthers(x: Xattrs)
    requires forall k | k in x.others :: !Reserved(k)
    ensures FromMap(ToMap(x)).others == x.others
  {
    hide ToMap;
    var y := FromMap(ToMap(x)).others;
    forall k
      ensures k in y <==> k in x.others
      ensures k in x.others && k in y ==> y[k] == x.others[k]
    {
      MapAt(x, k);
    }
  }

  lemma LosesReserved(x: Xattrs, k: seq<Byte>)
    requires k in x.others && Reserved(k)
    ensures k !in FromMap(ToMap(x)).others
  {
    hide ToMap;
  }
}
