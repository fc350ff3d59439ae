/** What a directory of segment files holds. A file is keyed by the sequence number in its name. */
module WalStoreModel {
  import opened Bytes
  import opened WalCodec
  import opened WalScan

  /** The store's note of one segment file. */
  datatype Segment = Segment(name: nat, first: nat, last: nat, size: nat, count: nat)

  type Dir = map<nat, seq<Byte>>

  predicate Increasing(kind: Kind, rs: seq<Record>) {
    forall i, j | 0 <= i < j < |rs| :: KeyOf(kind, rs[i]) < KeyOf(kind, rs[j])
  }

  /** The file of a segment with these records. */
  function Image(crc: Crc, kind: Kind, rs: seq<Record>): seq<Byte>
    requires AllStamped(crc, kind, rs)
  {
    DefaultHeader() + EncodeAll(crc, kind, rs)
  }

  /** The note for those records. */
  function NoteOf(crc: Crc, kind: Kind, rs: seq<Record>): Segment
    requires AllStamped(crc, kind, rs) && rs != []
  {
    var first := KeyOf(kind, rs[0]);
    Segment(first, first, KeyOf(kind, rs[|rs| - 1]), |Image(crc, kind, rs)|, |rs|)
  }

  /** A segment, its records and its file agree. */
  predicate SegmentOk(crc: Crc, kind: Kind, dir: Dir, s: Segment, rs: seq<Record>) {
    && rs != [] && AllStamped(crc, kind, rs) && Increasing(kind, rs)
    && s == NoteOf(crc, kind, rs) && s.name in dir && dir[s.name] == Image(crc, kind, rs)
  }

  predicate SegmentsOk(crc: Crc, kind: Kind, dir: Dir, segments: seq<Segment>, contents: seq<seq<Record>>) {
    && |segments| == |contents|
    && (forall i | 0 <= i < |segments| :: SegmentOk(crc, kind, dir, segments[i], contents[i]))
    && forall i, j | 0 <= i < j < |segments| :: segments[i].last < segments[j].first
  }

  function Names(segments: seq<Segment>): set<nat> {
    set i | 0 <= i < |segments| :: segments[i].name
  }

  /** The files are exactly the segments'. */
  predicate StoreOk(crc: Crc, kind: Kind, dir: Dir, segments: seq<Segment>, contents: seq<seq<Record>>) {
    SegmentsOk(crc, kind, dir, segments, contents) && dir.Keys == Names(segments)
  }

  function Flatten(contents: seq<seq<Record>>): seq<Record> {
    if contents == [] then [] else Flatten(contents[..|contents| - 1]) + contents[|contents| - 1]
  }

  lemma {:induction false} FlattenConcat(a: seq<seq<Record>>, b: seq<seq<Record>>)
    ensures Flatten(a + b) == Flatten(a) + Flatten(b)
  {
    if b == [] {
      assert a + b == a;
    } else {
      FlattenConcat(a, b[..|b| - 1]);
      assert (a + b)[..|a + b| - 1] == a + b[..|b| - 1];
    }
  }

  lemma FlattenSnoc(a: seq<seq<Record>>, rs: seq<Record>)
    ensures Flatten(a + [rs]) == Flatten(a) + rs
  {
    assert (a + [rs])[..|a|] == a;
  }

  // ----- selecting by key -----

  function From(kind: Kind, rs: seq<Record>, p: nat): seq<Record> {
    if rs == [] then [] else
    From(kind, rs[..|rs| - 1], p) + if KeyOf(kind, rs[|rs| - 1]) >= p then [rs[|rs| - 1]] else []
  }

  function UpTo(kind: Kind, rs: seq<Record>, m: nat): seq<Record> {
    if rs == [] then [] else
    UpTo(kind, rs[..|rs| - 1], m) + if KeyOf(kind, rs[|rs| - 1]) <= m then [rs[|rs| - 1]] else []
  }

  lemma {:induction false} FromConcat(kind: Kind, a: seq<Record>, b: seq<Record>, p: nat)
    ensures From(kind, a + b, p) == From(kind, a, p) + From(kind, b, p)
  {
    if b == [] {
      assert a + b == a;
    } else {
      FromConcat(kind, a, b[..|b| - 1], p);
      assert (a + b)[..|a + b| - 1] == a + b[..|b| - 1];
    }
  }

  lemma {:induction false} UpToConcat(kind: Kind, a: seq<Record>, b: seq<Record>, m: nat)
    ensures UpTo(kind, a + b, m) == UpTo(kind, a, m) + UpTo(kind, b, m)
  {
    if b == [] {
      assert a + b == a;
    } else {
      UpToConcat(kind, a, b[..|b| - 1], m);
      assert (a + b)[..|a + b| - 1] == a + b[..|b| - 1];
    }
  }

  lemma {:induction false} FromNone(kind: Kind, rs: seq<Record>, p: nat)
    requires forall i | 0 <= i < |rs| :: KeyOf(kind, rs[i]) < p
    ensures From(kind, rs, p) == []
  {
    if rs != [] {
      FromNone(kind, rs[..|rs| - 1], p);
    }
  }

  lemma {:induction false} UpToAll(kind: Kind, rs: seq<Record>, m: nat)
    requires forall i | 0 <= i < |rs| :: KeyOf(kind, rs[i]) <= m
    ensures UpTo(kind, rs, m) == rs
  {
    hide KeyOf;
    if rs != [] {
      UpToAll(kind, rs[..|rs| - 1], m);
    }
  }

  lemma {:induction false} UpToNone(kind: Kind, rs: seq<Record>, m: nat)
    requires forall i | 0 <= i < |rs| :: KeyOf(kind, rs[i]) > m
    ensures UpTo(kind, rs, m) == []
  {
    hide KeyOf;
    if rs != [] {
      UpToNone(kind, rs[..|rs| - 1], m);
    }
  }

  /** The records up to `m` of an increasing run are its first ones. */
  lemma UpToPrefix(kind: Kind, rs: seq<Record>, m: nat, k: nat)
    requires k <= |rs| && (forall i | 0 <= i < k :: KeyOf(kind, rs[i]) <= m) && forall i | k <= i < |rs| ::
               KeyOf(kind, rs[i]) > m
    ensures UpTo(kind, rs, m) == rs[..k]
  {
    hide KeyOf, UpTo;
    UpToAll(kind, rs[..k], m);
    UpToNone(kind, rs[k..], m);
    UpToConcat(kind, rs[..k], rs[k..], m);
    assert rs == rs[..k] + rs[k..];
  }

  // ----- what a good store implies -----

  lemma KeysWithin(crc: Crc, kind: Kind, dir: Dir, s: Segment, rs: seq<Record>)
    requires SegmentOk(crc, kind, dir, s, rs)
    ensures forall i | 0 <= i < |rs| :: s.first <= KeyOf(kind, rs[i]) <= s.last
    ensures s.first <= s.last && s.count > 0
  {
    hide AllStamped, Image;
  }

  /** No record of the segments before the one that starts at or before `p` is at or above `p`. */
  lemma {:induction false} NoneBefore(crc: Crc, kind: Kind, dir: Dir, segments: seq<Segment>,
                                      contents: seq<seq<Record>>, k: nat, p: nat)
    requires SegmentsOk(crc, kind, dir, segments, contents) && k <= |segments|
    requires forall i | 0 <= i < k :: segments[i].last < p
    ensures From(kind, Flatten(contents[..k]), p) == []
  {
    hide SegmentOk, From;
    if k == 0 {
      FromNone(kind, [], p);
    } else {
      NoneBefore(crc, kind, dir, segments, contents, k - 1, p);
      KeysWithin(crc, kind, dir, segments[k - 1], contents[k - 1]);
      assert contents[..k] == contents[..k - 1] + [contents[k - 1]];
      FlattenSnoc(contents[..k - 1], contents[k - 1]);
      FromNone(kind, contents[k - 1], p);
      FromConcat(kind, Flatten(contents[..k - 1]), contents[k - 1], p);
    }
  }

  predicate Below(kind: Kind, rs: seq<Record>, key: nat) {
    forall i | 0 <= i < |rs| :: KeyOf(kind, rs[i]) < key
  }

  lemma BelowConcat(kind: Kind, a: seq<Record>, b: seq<Record>, key: nat)
    ensures Below(kind, a + b, key) <==> Below(kind, a, key) && Below(kind, b, key)
  {
    hide KeyOf;
    if Below(kind, a + b, key) {
      assert forall i | 0 <= i < |a| :: a[i] == (a + b)[i];
      assert forall i | 0 <= i < |b| :: b[i] == (a + b)[|a| + i];
    }
  }

  /** All keys are below `key` exactly when the segments' last ones are. */
  lemma {:induction false} LargestKey(crc: Crc, kind: Kind, dir: Dir, segments: seq<Segment>,
                                      contents: seq<seq<Record>>, key: nat)
    requires SegmentsOk(crc, kind, dir, segments, contents)
    ensures Below(kind, Flatten(contents), key) <==> forall i | 0 <= i < |segments| :: segments[i].last < key
    decreases |segments|
  {
    hide SegmentOk;
    if segments != [] {
      var n := |segments| - 1;
      LargestKey(crc, kind, dir, segments[..n], contents[..n], key);
      SegmentBelow(crc, kind, dir, segments[n], contents[n], key);
      BelowConcat(kind, Flatten(contents[..n]), contents[n], key);
    }
  }

  lemma SegmentBelow(crc: Crc, kind: Kind, dir: Dir, s: Segment, rs: seq<Record>, key: nat)
    requires SegmentOk(crc, kind, dir, s, rs)
    ensures Below(kind, rs, key) <==> s.last < key
  {
    KeysWithin(crc, kind, dir, s, rs);
    LastKey(crc, kind, dir, s, rs);
  }

  lemma LastKey(crc: Crc, kind: Kind, dir: Dir, s: Segment, rs: seq<Record>)
    requires SegmentOk(crc, kind, dir, s, rs)
    ensures rs != [] && KeyOf(kind, rs[|rs| - 1]) == s.last
  {
  }

  /** A larger key is no file's name. */
  lemma FreshName(crc: Crc, kind: Kind, dir: Dir, segments: seq<Segment>, contents: seq<seq<Record>>, key: nat)
    requires StoreOk(crc, kind, dir, segments, contents) && forall i | 0 <= i < |segments| :: segments[i].last < key
    ensures key !in dir
  {
    hide SegmentOk;
    forall i | 0 <= i < |segments|
      ensures segments[i].name < key
    {
      NameIsFirst(crc, kind, dir, segments[i], contents[i]);
    }
  }

  lemma NameIsFirst(crc: Crc, kind: Kind, dir: Dir, s: Segment, rs: seq<Record>)
    requires SegmentOk(crc, kind, dir, s, rs)
    ensures s.name == s.first <= s.last && s.name in dir
  {
    KeysWithin(crc, kind, dir, s, rs);
  }

  lemma SegmentMoved(crc: Crc, kind: Kind, dir: Dir, other: Dir, s: Segment, rs: seq<Record>)
    requires SegmentOk(crc, kind, dir, s, rs) && s.name in other && other[s.name] == dir[s.name]
    ensures SegmentOk(crc, kind, other, s, rs)
  {
  }

  /** Adding a file with larger keys leaves a good store. */
  lemma AddLast(crc: Crc, kind: Kind, dir: Dir, segments: seq<Segment>, contents: seq<seq<Record>>, file: seq<Byte>,
                s: Segment, rs: seq<Record>)
    requires StoreOk(crc, kind, dir, segments, contents) && SegmentOk(crc, kind, map[s.name := file], s, rs)
    requires forall i | 0 <= i < |segments| :: segments[i].last < s.first
    ensures s.name !in dir && StoreOk(crc, kind, dir[s.name := file], segments + [s], contents + [rs])
  {
    hide SegmentOk;
    var d := dir[s.name := file];
    NameIsFirst(crc, kind, map[s.name := file], s, rs);
    FreshName(crc, kind, dir, segments, contents, s.first);
    SegmentMoved(crc, kind, map[s.name := file], d, s, rs);
    forall i | 0 <= i < |segments|
      ensures SegmentOk(crc, kind, d, segments[i], contents[i])
    {
      NameIsFirst(crc, kind, dir, segments[i], contents[i]);
      SegmentMoved(crc, kind, dir, d, segments[i], contents[i]);
    }
    NamesSnoc(segments, s);
  }

  lemma NamesSnoc(segments: seq<Segment>, s: Segment)
    ensures Names(segments + [s]) == Names(segments) + {s.name}
  {
    forall n | n in Names(segments) + {s.name}
      ensures n in Names(segments + [s])
    {
      if n == s.name {
        assert (segments + [s])[|segments|].name == n;
      } else {
        var i :| 0 <= i < |segments| && segments[i].name == n;
        assert (segments + [s])[i].name == n;
      }
    }
  }

  /** Taking the last segment and its file away leaves a good store. */
  lemma DropLast(crc: Crc, kind: Kind, dir: Dir, segments: seq<Segment>, contents: seq<seq<Record>>)
    requires StoreOk(crc, kind, dir, segments, contents) && segments != []
    ensures var n := |segments| - 1; StoreOk(crc, kind, dir - {segments[n].name}, segments[..n], contents[..n])
  {
    hide SegmentOk;
    var n := |segments| - 1;
    var left := dir - {segments[n].name};
    NameIsFirst(crc, kind, dir, segments[n], contents[n]);
    forall i | 0 <= i < n
      ensures SegmentOk(crc, kind, left, segments[..n][i], contents[..n][i]) && segments[i].name != segments[n].name
    {
      NameIsFirst(crc, kind, dir, segments[i], contents[i]);
      SegmentMoved(crc, kind, dir, left, segments[i], contents[i]);
    }
    assert segments == segments[..n] + [segments[n]];
    NamesSnoc(segments[..n], segments[n]);
    assert segments[n].name !in Names(segments[..n]);
  }

  /** Putting other records in the last file leaves a good store. */
  lemma ReplaceLast(crc: Crc, kind: Kind, dir: Dir, segments: seq<Segment>, contents: seq<seq<Record>>, file: seq<Byte>,
                    s: Segment, rs: seq<Record>)
    requires StoreOk(crc, kind, dir, segments, contents) && segments != []
             && SegmentOk(crc, kind, map[s.name := file], s, rs)
    requires s.name == segments[|segments| - 1].name
    ensures var n := |segments| - 1; StoreOk(crc, kind, dir[s.name := file], segments[..n] + [s], contents[..n] + [rs])
  {
    hide SegmentOk;
    var n := |segments| - 1;
    DropLast(crc, kind, dir, segments, contents);
    NameIsFirst(crc, kind, map[s.name := file], s, rs);
    NameIsFirst(crc, kind, dir, segments[n], contents[n]);
    AddLast(crc, kind, dir - {s.name}, segments[..n], contents[..n], file, s, rs);
    assert (dir - {s.name})[s.name := file] == dir[s.name := file];
  }

  /** The first records of a segment make a segment of the same name. */
  lemma CutSegment(crc: Crc, kind: Kind, dir: Dir, s: Segment, rs: seq<Record>, k: nat)
    requires SegmentOk(crc, kind, dir, s, rs) && 0 < k <= |rs|
    ensures AllStamped(crc, kind, rs[..k]) && NoteOf(crc, kind, rs[..k]).name == s.name
            && NoteOf(crc, kind, rs[..k]).last <= s.last
    ensures SegmentOk(crc, kind, map[s.name := Image(crc, kind, rs[..k])], NoteOf(crc, kind, rs[..k]), rs[..k])
  {
    hide Stamped, EncodeAll;
  }

  // ----- going through the segments -----

  /** A pass over the segments has seen the first `i` of them and kept `remaining`, with records `kept`. */
  predicate Passed(crc: Crc, kind: Kind, dir: Dir, remaining: seq<Segment>, kept: seq<seq<Record>>,
                   segments: seq<Segment>, contents: seq<seq<Record>>, i: nat)
  {
    && |segments| == |contents| && i <= |segments|
    && SegmentsOk(crc, kind, dir, remaining, kept)
    && SegmentsOk(crc, kind, dir, segments[i..], contents[i..])
    && dir.Keys == Names(remaining) + Names(segments[i..])
    && forall a, b | 0 <= a < |remaining| && i <= b < |segments| :: remaining[a].last < segments[b].first
  }

  lemma PassStarts(crc: Crc, kind: Kind, dir: Dir, segments: seq<Segment>, contents: seq<seq<Record>>)
    requires StoreOk(crc, kind, dir, segments, contents)
    ensures Passed(crc, kind, dir, [], [], segments, contents, 0)
  {
    hide SegmentOk;
    assert segments[0..] == segments && contents[0..] == contents;
  }

  lemma PassEnds(crc: Crc, kind: Kind, dir: Dir, remaining: seq<Segment>, kept: seq<seq<Record>>,
                 segments: seq<Segment>, contents: seq<seq<Record>>)
    requires Passed(crc, kind, dir, remaining, kept, segments, contents, |segments|)
    ensures StoreOk(crc, kind, dir, remaining, kept)
  {
    hide SegmentOk;
  }

  /** The segment the pass is at, and the names that are not its own. */
  lemma PassHead(crc: Crc, kind: Kind, dir: Dir, remaining: seq<Segment>, kept: seq<seq<Record>>,
                 segments: seq<Segment>, contents: seq<seq<Record>>, i: nat)
    requires Passed(crc, kind, dir, remaining, kept, segments, contents, i) && i < |segments|
    ensures SegmentOk(crc, kind, dir, segments[i], contents[i]) && segments[i].first <= segments[i].last
            && segments[i].name in dir
    ensures segments[i].name !in Names(remaining) && segments[i].name !in Names(segments[i + 1..])
    ensures Names(segments[i..]) == {segments[i].name} + Names(segments[i + 1..])
    ensures forall b | i < b < |segments| :: segments[i].last < segments[b].first
  {
    hide SegmentOk;
    var rest := segments[i..];
    assert rest[0] == segments[i] && contents[i..][0] == contents[i];
    NameIsFirst(crc, kind, dir, rest[0], contents[i]);
    forall b | i < b < |segments|
      ensures segments[i].last < segments[b].first && segments[i].name < segments[b].name
    {
      assert rest[0].last < rest[b - i].first;
      NameIsFirst(crc, kind, dir, rest[b - i], contents[i..][b - i]);
    }
    forall a | 0 <= a < |remaining|
      ensures remaining[a].name < segments[i].name
    {
      NameIsFirst(crc, kind, dir, remaining[a], kept[a]);
    }
    assert rest == [segments[i]] + segments[i + 1..];
    NamesCons(segments[i], segments[i + 1..]);
  }

  lemma NamesCons(s: Segment, segments: seq<Segment>)
    ensures Names([s] + segments) == {s.name} + Names(segments)
  {
    forall n | n in {s.name} + Names(segments)
      ensures n in Names([s] + segments)
    {
      if n == s.name {
        assert ([s] + segments)[0].name == n;
      } else {
        var i :| 0 <= i < |segments| && segments[i].name == n;
        assert ([s] + segments)[i + 1].name == n;
      }
    }
  }

  /** Changing only other files keeps segments good. */
  lemma SegmentsMoved(crc: Crc, kind: Kind, dir: Dir, other: Dir, segments: seq<Segment>, contents: seq<seq<Record>>)
    requires SegmentsOk(crc, kind, dir, segments, contents)
    requires forall n | n in Names(segments) :: n in dir && n in other && other[n] == dir[n]
    ensures SegmentsOk(crc, kind, other, segments, contents)
  {
    hide SegmentOk;
    forall i | 0 <= i < |segments|
      ensures SegmentOk(crc, kind, other, segments[i], contents[i])
    {
      assert segments[i].name in Names(segments);
      SegmentMoved(crc, kind, dir, other, segments[i], contents[i]);
    }
  }

  lemma NamesInDir(crc: Crc, kind: Kind, dir: Dir, segments: seq<Segment>, contents: seq<seq<Record>>)
    requires SegmentsOk(crc, kind, dir, segments, contents)
    ensures Names(segments) <= dir.Keys
  {
    hide SegmentOk;
    forall i | 0 <= i < |segments|
      ensures segments[i].name in dir
    {
      NameIsFirst(crc, kind, dir, segments[i], contents[i]);
    }
  }

  lemma TailOk(crc: Crc, kind: Kind, dir: Dir, segments: seq<Segment>, contents: seq<seq<Record>>, i: nat)
    requires |segments| == |contents| && i < |segments| && SegmentsOk(crc, kind, dir, segments[i..], contents[i..])
    ensures SegmentsOk(crc, kind, dir, segments[i + 1..], contents[i + 1..])
  {
    hide SegmentOk;
    var s, c := segments[i..], contents[i..];
    assert segments[i + 1..] == s[1..] && contents[i + 1..] == c[1..];
    assert forall j | 0 <= j < |s| - 1 :: s[1..][j] == s[j + 1] && c[1..][j] == c[j + 1];
  }

  /** The segment goes, with its file. */
  lemma PassDrop(crc: Crc, kind: Kind, dir: Dir, remaining: seq<Segment>, kept: seq<seq<Record>>,
                 segments: seq<Segment>, contents: seq<seq<Record>>, i: nat)
    requires Passed(crc, kind, dir, remaining, kept, segments, contents, i) && i < |segments|
    ensures Passed(crc, kind, dir - {segments[i].name}, remaining, kept, segments, contents, i + 1)
  {
    hide SegmentOk, SegmentsOk, Names;
    var other := dir - {segments[i].name};
    PassHead(crc, kind, dir, remaining, kept, segments, contents, i);
    NamesInDir(crc, kind, dir, remaining, kept);
    SegmentsMoved(crc, kind, dir, other, remaining, kept);
    TailOk(crc, kind, dir, segments, contents, i);
    NamesInDir(crc, kind, dir, segments[i + 1..], contents[i + 1..]);
    SegmentsMoved(crc, kind, dir, other, segments[i + 1..], contents[i + 1..]);
  }

  /** The segment stays, whole or cut down to its first records. */
  lemma PassKeep(crc: Crc, kind: Kind, dir: Dir, remaining: seq<Segment>, kept: seq<seq<Record>>,
                 segments: seq<Segment>, contents: seq<seq<Record>>, i: nat,
                 file: seq<Byte>, s: Segment, rs: seq<Record>)
    requires Passed(crc, kind, dir, remaining, kept, segments, contents, i) && i < |segments|
    requires SegmentOk(crc, kind, map[s.name := file], s, rs) && s.name == segments[i].name
             && s.last <= segments[i].last
    ensures Passed(crc, kind, dir[s.name := file], remaining + [s], kept + [rs], segments, contents, i + 1)
  {
    hide SegmentOk, SegmentsOk, Names;
    var other := dir[s.name := file];
    PassHead(crc, kind, dir, remaining, kept, segments, contents, i);
    NamesInDir(crc, kind, dir, remaining, kept);
    SegmentsMoved(crc, kind, dir, other, remaining, kept);
    TailOk(crc, kind, dir, segments, contents, i);
    NamesInDir(crc, kind, dir, segments[i + 1..], contents[i + 1..]);
    SegmentsMoved(crc, kind, dir, other, segments[i + 1..], contents[i + 1..]);
    SegmentMoved(crc, kind, map[s.name := file], other, s, rs);
    NameIsFirst(crc, kind, dir, segments[i], contents[i]);
    NameIsFirst(crc, kind, other, s, rs);
    SegmentsSnoc(crc, kind, other, remaining, kept, s, rs);
    NamesSnoc(remaining, s);
  }

  lemma SegmentsSnoc(crc: Crc, kind: Kind, dir: Dir, segments: seq<Segment>, contents: seq<seq<Record>>, s: Segment,
                     rs: seq<Record>)
    requires SegmentsOk(crc, kind, dir, segments, contents) && SegmentOk(crc, kind, dir, s, rs)
    requires forall i | 0 <= i < |segments| :: segments[i].last < s.first
    ensures SegmentsOk(crc, kind, dir, segments + [s], contents + [rs])
  {
    hide SegmentOk;
  }
}
