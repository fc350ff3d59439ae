/** How the image writer divides every inode's attributes between the inode and the shared table. */
module XattrPlan {
  import opened Bytes
  import opened Xattr
  import opened Options
  import BigEndian
  import XattrSpill

  datatype Split = Split(shared: seq<Attr>, inline: seq<Attr>)

  datatype PlanError = BadAttr(error: Error) | TooManyAttrs

  datatype Outcome<+T> = Done(value: T) | Failed(error: PlanError)

  /** The bytes an inode and its attributes may take: eight slots of 32. */
  const ROOM: nat := 256

  /** Each attribute is on exactly one side. */
  ghost predicate SplitOf(attrs: seq<Attr>, s: Split) {
    && (forall a :: a in attrs <==> a in s.shared || a in s.inline)
    && (DistinctKeys(attrs) ==> DistinctKeys(s.shared + s.inline))
  }

  /** The area fits, and only entries longer than an id are shared. */
  ghost predicate SplitFits(s: Split, header: nat) {
    && AllEncodable(s.shared) && AllEncodable(s.inline)
    && (s.shared != [] || s.inline != [] ==> header + 12 + 4 * |s.shared| + |Entries(s.inline)| <= ROOM)
    && forall a | a in s.shared :: Encodable(a) && |Entry(a)| > 4
  }

  /** The sizes of the encoded attributes, or the first that cannot be encoded. */
  method EncodedSizes(attrs: seq<Attr>) returns (r: Outcome<seq<nat>>)
    ensures r.Done? <==> AllEncodable(attrs)
    ensures r.Done? ==> |r.value| == |attrs| && forall i | 0 <= i < |attrs| :: r.value[i] == |Entry(attrs[i])| >= 4
    ensures r.Failed? ==> r.error.BadAttr?
  {
    hide Entry, Suffix;
    var sizes: seq<nat>, i := [], 0;
    while i < |attrs|
      invariant 0 <= i <= |attrs| && |sizes| == i
      invariant forall j | 0 <= j < i :: Encodable(attrs[j]) && sizes[j] == |Entry(attrs[j])| >= 4
    {
      var e := EncodeEntry(attrs[i]);
      if e.Err? {
        return Failed(BadAttr(e.error));
      }
      sizes := sizes + [|e.value|];
      i := i + 1;
    }
    r := Done(sizes);
  }

  /** The encoded sizes of `attrs`, and the positions below `n`. */
  ghost predicate Sized(attrs: seq<Attr>, sizes: seq<nat>) {
    AllEncodable(attrs) && |sizes| == |attrs| && forall i | 0 <= i < |attrs| :: sizes[i] == |Entry(attrs[i])|
  }

  lemma EntriesMore(attrs: seq<Attr>, a: Attr)
    requires AllEncodable(attrs) && Encodable(a)
    ensures AllEncodable(attrs + [a]) && |Entries(attrs + [a])| == |Entries(attrs)| + |Entry(a)|
    decreases attrs
  {
    hide Entry, Encodable;
    if attrs == [] {
      assert attrs + [a] == [a] && [a][1..] == [];
    } else {
      EntriesMore(attrs[1..], a);
      assert (attrs + [a])[1..] == attrs[1..] + [a];
    }
  }

  /** Of the first `i` positions, those that stay and those that go. */
  ghost function Kept(spilled: set<nat>, i: nat): set<nat> {
    XattrSpill.Below(i) - spilled
  }

  ghost function Moved(spilled: set<nat>, i: nat): set<nat> {
    XattrSpill.Below(i) * spilled
  }

  lemma KeptNext(sizes: seq<nat>, spilled: set<nat>, i: nat)
    requires i < |sizes|
    ensures Kept(spilled, i) <= XattrSpill.All(sizes) && Kept(spilled, i + 1) <= XattrSpill.All(sizes)
    ensures i in XattrSpill.All(sizes) && i !in Kept(spilled, i) && i !in Moved(spilled, i)
    ensures i in spilled ==>
              Kept(spilled, i + 1) == Kept(spilled, i) && Moved(spilled, i + 1) == Moved(spilled, i) + {i}
    ensures i !in spilled ==>
              Kept(spilled, i + 1) == Kept(spilled, i) + {i} && Moved(spilled, i + 1) == Moved(spilled, i)
  {
  }

  lemma KeptEnds(sizes: seq<nat>, spilled: set<nat>)
    requires spilled <= XattrSpill.All(sizes)
    ensures Kept(spilled, 0) == {} && Moved(spilled, 0) == {}
    ensures Kept(spilled, |sizes|) == XattrSpill.All(sizes) - spilled && Moved(spilled, |sizes|) == spilled
  {
  }

  /** The division after the first `i` attributes. */
  ghost predicate Dealt(attrs: seq<Attr>, sizes: seq<nat>, spilled: set<nat>, i: nat, s: Split) {
    && Sized(attrs, sizes) && AllEncodable(s.shared) && AllEncodable(s.inline)
    && Kept(spilled, i) <= XattrSpill.All(sizes) && |Entries(s.inline)| == XattrSpill.SumOf(sizes, Kept(spilled, i))
    && |s.shared| == |Moved(spilled, i)|
  }

  lemma DealtOut(attrs: seq<Attr>, sizes: seq<nat>, spilled: set<nat>, i: nat, s: Split)
    requires Dealt(attrs, sizes, spilled, i, s) && i < |attrs| && i in spilled
    ensures Dealt(attrs, sizes, spilled, i + 1, Split(s.shared + [attrs[i]], s.inline))
  {
    hide Entry, Entries, XattrSpill.SumOf, XattrSpill.All, Encodable, Kept, Moved;
    KeptNext(sizes, spilled, i);
  }

  lemma DealtIn(attrs: seq<Attr>, sizes: seq<nat>, spilled: set<nat>, i: nat, s: Split)
    requires Dealt(attrs, sizes, spilled, i, s) && i < |attrs| && i !in spilled
    ensures Dealt(attrs, sizes, spilled, i + 1, Split(s.shared, s.inline + [attrs[i]]))
  {
    hide Entry, Entries, XattrSpill.SumOf, XattrSpill.All, Encodable, Kept, Moved;
    KeptNext(sizes, spilled, i);
    XattrSpill.SumAdd(sizes, Kept(spilled, i), i);
    EntriesMore(s.inline, attrs[i]);
  }

  lemma DealtAll(attrs: seq<Attr>, sizes: seq<nat>, spilled: set<nat>, s: Split, max: int)
    requires spilled <= XattrSpill.All(sizes) && Dealt(attrs, sizes, spilled, |attrs|, s)
             && XattrSpill.FitsWith(sizes, max, spilled)
    ensures 12 + 4 * |s.shared| + |Entries(s.inline)| == XattrSpill.Taken(sizes, spilled) <= max
    ensures |s.shared| == |spilled|
  {
    hide Entry, Entries, XattrSpill.SumOf, XattrSpill.All, Encodable, Kept, Moved;
    XattrSpill.SumSplitOff(sizes, spilled);
    KeptEnds(sizes, spilled);
  }

  lemma SplitNext(attrs: seq<Attr>, i: nat, s: Split)
    requires i < |attrs| && SplitOf(attrs[..i], s)
    ensures SplitOf(attrs[..i + 1], Split(s.shared + [attrs[i]], s.inline))
    ensures SplitOf(attrs[..i + 1], Split(s.shared, s.inline + [attrs[i]]))
  {
    var was, now, a := attrs[..i], attrs[..i + 1], attrs[i];
    assert now == was + [a];
    var left, right := (s.shared + [a]) + s.inline, s.shared + (s.inline + [a]);
    if DistinctKeys(now) {
      assert DistinctKeys(was);
      forall b | b in s.shared + s.inline
        ensures b.key != a.key
      {
        var j :| 0 <= j < |was| && was[j] == b;
        assert now[j] == b && now[i] == a;
      }
      Inserted(s.shared, s.inline, a);
    }
  }

  lemma Inserted(x: seq<Attr>, y: seq<Attr>, a: Attr)
    requires DistinctKeys(x + y) && forall b | b in x + y :: b.key != a.key
    ensures DistinctKeys((x + [a]) + y) && DistinctKeys(x + (y + [a]))
  {
    var both, left, right := x + y, (x + [a]) + y, x + (y + [a]);
    forall i, j | 0 <= i < j < |left|
      ensures left[i].key != left[j].key
    {
      var p, q := if i < |x| then i else i - 1, if j < |x| then j else j - 1;
      assert i != |x| ==> left[i] == both[p] && both[p] in both;
      assert j != |x| ==> left[j] == both[q] && both[q] in both;
    }
    forall i, j | 0 <= i < j < |right|
      ensures right[i].key != right[j].key
    {
      assert right[i] == both[i] && both[i] in both;
      assert j < |both| ==> right[j] == both[j];
    }
  }

  /** The bytes a division's area takes. */
  ghost function AreaBytes(s: Split): nat
    requires AllEncodable(s.inline)
  {
    if s.shared == [] && s.inline == [] then 0 else 12 + 4 * |s.shared| + |Entries(s.inline)|
  }

  ghost predicate NeedsWith(attrs: seq<Attr>, header: nat, n: int, sizes: seq<nat>, s: set<nat>) {
    Sized(attrs, sizes) && XattrSpill.Best(sizes, ROOM - header, s) && n == XattrSpill.Taken(sizes, s)
  }

  /** An inode with these attributes has an attribute area of `n` bytes. */
  ghost predicate Needs(attrs: seq<Attr>, header: nat, n: int) {
    if attrs == [] then n == 0 else exists sizes, s :: NeedsWith(attrs, header, n, sizes, s)
  }

  lemma OneNeed(attrs: seq<Attr>, header: nat, m: int, n: int)
    requires Needs(attrs, header, m) && Needs(attrs, header, n)
    ensures m == n
  {
    hide XattrSpill.Taken, XattrSpill.Best, Sized;
    if attrs != [] {
      var sizes, s :| NeedsWith(attrs, header, m, sizes, s);
      var others, t :| NeedsWith(attrs, header, n, others, t);
      OneSize(attrs, sizes);
      XattrSpill.BestTakes(sizes, ROOM - header, s, t);
    }
  }

  /** Divide an inode's attributes. It fails exactly when one cannot be encoded or no division fits, and it moves
      as few to the table as any division that fits. */
  method SplitAttrs(attrs: seq<Attr>, header: nat) returns (r: Outcome<Split>)
    requires header <= 64
    ensures r.Done? ==> SplitOf(attrs, r.value) && SplitFits(r.value, header)
    ensures r.Done? ==> Needs(attrs, header, AreaBytes(r.value))
    ensures r.Done? ==> forall sizes, spilled | Sized(attrs, sizes) && spilled <= XattrSpill.All(sizes)
            && attrs != [] &&
              XattrSpill.FitsWith(sizes, ROOM - header, spilled) :: |r.value.shared| <= |spilled|
    ensures r.Failed? && r.error.BadAttr? <==> !AllEncodable(attrs)
    ensures r.Failed? && r.error.TooManyAttrs? ==> attrs != [] && forall sizes, spilled | Sized(attrs, sizes)
             && spilled <= XattrSpill.All(sizes) ::
              !XattrSpill.FitsWith(sizes, ROOM - header, spilled)
  {
    hide Entry, Entries, Encodable, XattrSpill.SumOf, XattrSpill.All, XattrSpill.Taken, Dealt, SplitOf;
    if attrs == [] {
      NothingSplit();
      return Done(Split([], []));
    }
    var sizes := EncodedSizes(attrs);
    if sizes.Failed? {
      return Failed(sizes.error);
    }
    var spilled := XattrSpill.Spill(sizes.value, ROOM - header);
    OneSize(attrs, sizes.value);
    if spilled.None? {
      return Failed(TooManyAttrs);
    }
    var s := Deal(attrs, sizes.value, spilled.value);
    DealtAll(attrs, sizes.value, spilled.value, s, ROOM - header);
    SplitSome(attrs, s);
    SharedLong(attrs, sizes.value, ROOM - header, spilled.value, s);
    assert NeedsWith(attrs, header, AreaBytes(s), sizes.value, spilled.value);
    r := Done(s);
  }

  lemma SharedLong(attrs: seq<Attr>, sizes: seq<nat>, max: int, spilled: set<nat>, s: Split)
    requires Sized(attrs, sizes) && XattrSpill.Best(sizes, max, spilled)
    requires forall a | a in s.shared :: exists i :: 0 <= i < |attrs| && i in spilled && attrs[i] == a
    ensures forall a | a in s.shared :: Encodable(a) && |Entry(a)| > 4
  {
    hide Entry, Encodable, XattrSpill.Best;
    forall a | a in s.shared
      ensures Encodable(a) && |Entry(a)| > 4
    {
      var i :| 0 <= i < |attrs| && i in spilled && attrs[i] == a;
      XattrSpill.BestSpillsLong(sizes, max, spilled, i);
    }
  }

  lemma SplitSome(attrs: seq<Attr>, s: Split)
    requires SplitOf(attrs, s) && attrs != []
    ensures s.shared != [] || s.inline != []
  {
    assert attrs[0] in attrs;
  }

  lemma OneSize(attrs: seq<Attr>, sizes: seq<nat>)
    requires Sized(attrs, sizes)
    ensures forall other | Sized(attrs, other) :: other == sizes
  {
    hide Entry, Encodable;
  }

  /** Divide the attributes by their positions. */
  method Deal(attrs: seq<Attr>, sizes: seq<nat>, spilled: set<nat>) returns (s: Split)
    requires Sized(attrs, sizes) && spilled <= XattrSpill.All(sizes)
    ensures SplitOf(attrs, s) && Dealt(attrs, sizes, spilled, |attrs|, s) && AllEncodable(s.shared)
            && AllEncodable(s.inline)
    ensures forall a | a in s.shared :: exists i :: 0 <= i < |attrs| && i in spilled && attrs[i] == a
  {
    hide Entry, Entries, Encodable, XattrSpill.SumOf, XattrSpill.All, Kept, Moved, SplitOf;
    s := Split([], []);
    DealtNone(attrs, sizes, spilled);
    NothingSplit();
    assert attrs[..0] == [];
    var i := 0;
    while i < |attrs|
      invariant 0 <= i <= |attrs| && Dealt(attrs, sizes, spilled, i, s) && SplitOf(attrs[..i], s)
      invariant forall a | a in s.shared :: exists j :: 0 <= j < |attrs| && j in spilled && attrs[j] == a
    {
      SplitNext(attrs, i, s);
      if i in spilled {
        DealtOut(attrs, sizes, spilled, i, s);
        s := Split(s.shared + [attrs[i]], s.inline);
      } else {
        DealtIn(attrs, sizes, spilled, i, s);
        s := Split(s.shared, s.inline + [attrs[i]]);
      }
      i := i + 1;
    }
    assert attrs[..|attrs|] == attrs;
  }

  lemma NothingSplit()
    ensures SplitOf([], Split([], []))
  {
  }

  lemma DealtNone(attrs: seq<Attr>, sizes: seq<nat>, spilled: set<nat>)
    requires Sized(attrs, sizes) && spilled <= XattrSpill.All(sizes)
    ensures Dealt(attrs, sizes, spilled, 0, Split([], []))
  {
    hide Entry, XattrSpill.All, XattrSpill.SumOf, Kept, Moved;
    KeptEnds(sizes, spilled);
    XattrSpill.SumOfNone(sizes);
  }

  // ----- the shared table of the whole image -----

  ghost predicate SharedBy(table: seq<Byte>, ids: seq<nat>, shared: seq<Attr>) {
    |ids| == |shared| && forall k | 0 <= k < |ids| :: InTable(table, ids[k], shared[k])
  }

  function Flat(splits: seq<Split>): seq<Attr> {
    if splits == [] then [] else Flat(splits[..|splits| - 1]) + splits[|splits| - 1].shared
  }

  lemma FlatNext(splits: seq<Split>, i: nat)
    requires i < |splits|
    ensures Flat(splits[..i + 1]) == Flat(splits[..i]) + splits[i].shared
  {
    assert splits[..i + 1][..i] == splits[..i];
  }

  lemma {:induction false} FlatPart(splits: seq<Split>, i: nat)
    requires i < |splits|
    ensures var at := |Flat(splits[..i])|;
            at + |splits[i].shared| <= |Flat(splits)| && Flat(splits)[at..at + |splits[i].shared|] == splits[i].shared
    decreases |splits|
  {
    var last := |splits| - 1;
    var front, mine := Flat(splits[..last]), splits[i].shared;
    assert Flat(splits) == front + splits[last].shared;
    if i < last {
      FlatPart(splits[..last], i);
      assert splits[..last][..i] == splits[..i];
      var at := |Flat(splits[..i])|;
      assert Flat(splits)[at..at + |mine|] == front[at..at + |mine|];
    } else {
      assert Flat(splits)[|front|..] == mine;
    }
  }

  lemma {:induction false} FlatEncodable(splits: seq<Split>)
    requires forall i | 0 <= i < |splits| :: AllEncodable(splits[i].shared)
    ensures AllEncodable(Flat(splits))
  {
    if splits != [] {
      FlatEncodable(splits[..|splits| - 1]);
    }
  }

  /** One table for all inodes, and each inode's ids into it. */
  method ShareAll(splits: seq<Split>) returns (ids: seq<seq<nat>>, table: seq<Byte>)
    requires forall i | 0 <= i < |splits| :: AllEncodable(splits[i].shared)
    ensures |ids| == |splits| && forall i | 0 <= i < |splits| :: SharedBy(table, ids[i], splits[i].shared)
  {
    hide InTable, Encodable, Flat;
    FlatEncodable(splits);
    var flat: seq<Attr>, i := [], 0;
    assert Flat(splits[..0]) == [] by {
      FlatNone(splits);
    }
    while i < |splits|
      invariant 0 <= i <= |splits| && flat == Flat(splits[..i])
    {
      FlatNext(splits, i);
      flat := flat + splits[i].shared;
      i := i + 1;
    }
    assert splits[..|splits|] == splits;
    var all;
    all, table := ShareEntries(flat);
    ids := [];
    var at := 0;
    i := 0;
    FlatNone(splits);
    while i < |splits|
      invariant 0 <= i <= |splits| && |ids| == i && at == |Flat(splits[..i])|
      invariant forall j | 0 <= j < i :: SharedBy(table, ids[j], splits[j].shared)
    {
      FlatPart(splits, i);
      FlatNext(splits, i);
      var n := |splits[i].shared|;
      ids := ids + [all[at..at + n]];
      assert forall k | 0 <= k < n :: splits[i].shared[k] == flat[at + k];
      at := at + n;
      i := i + 1;
    }
  }

  lemma FlatNone(splits: seq<Split>)
    ensures Flat(splits[..0]) == []
  {
  }

  /** The bytes after an inode's header. */
  function AreaOf(ids: seq<nat>, inline: seq<Attr>): seq<Byte>
    requires |ids| <= 255 && AllEncodable(inline)
  {
    if ids == [] && inline == [] then [] else Area(ids, inline)
  }

  lemma {:induction false} EntriesAligned(attrs: seq<Attr>)
    requires AllEncodable(attrs)
    ensures |Entries(attrs)| % 4 == 0
  {
    hide Entry, Encodable;
    if attrs != [] {
      EntriesAligned(attrs[1..]);
      SumAligned(|Entry(attrs[0])|, |Entries(attrs[1..])|);
    }
  }

  lemma SumAligned(x: nat, y: nat)
    requires x % 4 == 0 && y % 4 == 0
    ensures (x + y) % 4 == 0
  {
  }

  lemma AreaLength(ids: seq<nat>, s: Split, header: nat)
    requires |ids| == |s.shared| && SplitFits(s, header)
    ensures |ids| <= 255
    ensures var b := AreaOf(ids, s.inline); |b| % 4 == 0 && (b != [] ==> |b| >= 12 && header + |b| <= ROOM)
    ensures AreaOf(ids, s.inline) == [] <==> s.shared == [] && s.inline == []
    ensures |AreaOf(ids, s.inline)| == AreaBytes(s)
  {
    hide Entry, Encodable, Entries;
    EntriesAligned(s.inline);
  }

  lemma InLonger(table: seq<Byte>, longer: seq<Byte>, id: nat, a: Attr)
    requires InTable(table, id, a) && table <= longer
    ensures InTable(longer, id, a)
  {
    hide Entry;
    var n := |Entry(a)|;
    assert longer[..|table|] == table;
    assert longer[4 * id..4 * id + n] == table[4 * id..4 * id + n];
  }

  lemma {:induction false} MapOfSame(a: seq<Attr>, b: seq<Attr>)
    requires DistinctKeys(a) && DistinctKeys(b) && forall x :: x in a <==> x in b
    ensures Spells(b, MapOf(a))
  {
    Pairs(a);
    forall i | 0 <= i < |b|
      ensures b[i].key in MapOf(a) && MapOf(a)[b[i].key] == b[i].val
    {
      assert b[i] in b;
    }
    forall k | k in MapOf(a)
      ensures exists i :: 0 <= i < |b| && b[i].key == k
    {
      assert Attr(k, MapOf(a)[k]) in b;
    }
  }

  lemma {:induction false} Pairs(a: seq<Attr>)
    requires DistinctKeys(a)
    ensures forall x | x in a :: x.key in MapOf(a) && MapOf(a)[x.key] == x.val
    ensures forall k | k in MapOf(a) :: Attr(k, MapOf(a)[k]) in a
  {
    if a != [] {
      var rest, last := a[..|a| - 1], a[|a| - 1];
      Pairs(rest);
      assert a == rest + [last];
    }
  }

  /** An inode's attributes read back from its area and any file the table starts. */
  lemma AreaReads(attrs: seq<Attr>, s: Split, ids: seq<nat>, table: seq<Byte>, rest: seq<Byte>)
    requires SplitOf(attrs, s) && attrs != [] && DistinctKeys(attrs)
             && (forall i | 0 <= i < |attrs| :: Visible(attrs[i]))
    requires |ids| <= 255 && AllEncodable(s.inline) && SharedBy(table, ids, s.shared) && |table| < 0x4_0000_0000
             && table <= rest
    ensures var f := Found(AreaOf(ids, s.inline), rest, table != []); f.Ok? && MapOf(f.value) == MapOf(attrs)
  {
    hide Found, Area, InTable, Visible, Encodable, MapOf, Entry;
    MapOfSame(attrs, s.shared + s.inline);
    assert attrs[0] in attrs;
    forall i | 0 <= i < |s.inline|
      ensures Visible(s.inline[i])
    {
      assert s.inline[i] in s.inline;
    }
    forall k | 0 <= k < |ids|
      ensures ids[k] < 0x1_0000_0000 && InTable(rest, ids[k], s.shared[k])
    {
      InLonger(table, rest, ids[k], s.shared[k]);
      IdBounded(table, ids[k], s.shared[k]);
    }
    BigEndian.Widths();
    AttributesReadBack(MapOf(attrs), ids, s.shared, s.inline, rest);
    if table == [] && ids != [] {
      IdBounded(table, ids[0], s.shared[0]);
    }
    NoneShared(ids, s.inline, rest);
  }

  /** Whatever they are, they read back if and only if all of them are visible: an entry that is not is never shared. */
  lemma AreaReadsIff(attrs: seq<Attr>, s: Split, header: nat, ids: seq<nat>, table: seq<Byte>, rest: seq<Byte>)
    requires SplitOf(attrs, s) && SplitFits(s, header) && attrs != [] && DistinctKeys(attrs)
    requires |ids| <= 255 && SharedBy(table, ids, s.shared) && |table| < 0x4_0000_0000 && table <= rest
    ensures var f := Found(AreaOf(ids, s.inline), rest, table != []);
            f.Ok? && (MapOf(f.value) == MapOf(attrs) <==> forall i | 0 <= i < |attrs| :: Visible(attrs[i]))
  {
    hide Found, Area, InTable, Visible, Encodable, MapOf, Entry, DistinctKeys;
    if forall i | 0 <= i < |attrs| :: Visible(attrs[i]) {
      AreaReads(attrs, s, ids, table, rest);
    } else {
      var x :| x in attrs && !Visible(x);
      var seen := AreaFindsRest(s, ids, table, rest);
      SplitSome(attrs, s);
      InvisibleMissing(attrs, s, seen, x);
    }
  }

  lemma AreaFindsRest(s: Split, ids: seq<nat>, table: seq<Byte>, rest: seq<Byte>) returns (seen: seq<Attr>)
    requires AllEncodable(s.inline) && |ids| <= 255 && SharedBy(table, ids, s.shared) && |table| < 0x4_0000_0000
             && table <= rest
    ensures Found(Area(ids, s.inline), rest, table != []) == Ok(s.shared + seen)
    ensures forall a | a in seen :: a in s.inline && Visible(a)
  {
    hide Found, Area, InTable, Visible, Encodable, Entry;
    forall k | 0 <= k < |ids|
      ensures ids[k] < 0x1_0000_0000 && InTable(rest, ids[k], s.shared[k])
    {
      InLonger(table, rest, ids[k], s.shared[k]);
      IdBounded(table, ids[k], s.shared[k]);
    }
    BigEndian.Widths();
    seen := AreaFinds(ids, s.shared, s.inline, rest);
    if table == [] && ids != [] {
      IdBounded(table, ids[0], s.shared[0]);
    }
    NoneShared(ids, s.inline, rest);
  }

  /** The key of an attribute that is not visible is not read. */
  lemma InvisibleMissing(attrs: seq<Attr>, s: Split, seen: seq<Attr>, x: Attr)
    requires SplitOf(attrs, s) && DistinctKeys(attrs) && x in attrs && !Visible(x)
    requires forall a | a in s.shared :: Encodable(a) && |Entry(a)| > 4
    requires forall a | a in seen :: a in s.inline && Visible(a)
    ensures MapOf(s.shared + seen) != MapOf(attrs)
  {
    hide MapOf, Visible, Entry, Encodable;
    var found := s.shared + seen;
    MapOfKeys(found);
    MapOfKeys(attrs);
    forall i | 0 <= i < |found|
      ensures found[i].key != x.key
    {
      var y := found[i];
      if i < |s.shared| {
        assert y in s.shared;
        LongIsVisible(y);
      } else {
        assert y == seen[i - |s.shared|] && y in seen;
      }
      SameKey(attrs, x, y);
    }
    var j :| 0 <= j < |attrs| && attrs[j] == x;
    assert x.key in MapOf(attrs) && x.key !in MapOf(found);
  }

  lemma SameKey(attrs: seq<Attr>, x: Attr, y: Attr)
    requires DistinctKeys(attrs) && x in attrs && y in attrs && x != y
    ensures x.key != y.key
  {
    var i :| 0 <= i < |attrs| && attrs[i] == x;
    var j :| 0 <= j < |attrs| && attrs[j] == y;
  }

  lemma IdBounded(table: seq<Byte>, id: nat, a: Attr)
    requires InTable(table, id, a)
    ensures table != [] && 4 * id < |table|
  {
    hide Entry;
  }

  /** An area without ids needs no table. */
  lemma NoneShared(ids: seq<nat>, inline: seq<Attr>, table: seq<Byte>)
    requires |ids| <= 255 && AllEncodable(inline)
    ensures ids == [] ==> Found(Area(ids, inline), table, false) == Found(Area(ids, inline), table, true)
  {
    hide SharedFrom, InlineFrom, Entries, Entry;
    assert Area(ids, inline)[4] == |ids|;
  }
}
